/** Facts about the literal texts of the placeholder examples, kept apart so that each is checked on its own. */
module PlaceholderLiterals {
  lemma TestFmtFacts()
    ensures "Test {fmt} {bar}"[5..10] == "{fmt}"
    ensures "Test {fmt} {bar}"[..5] + "3" + "Test {fmt} {bar}"[10..] == "Test 3 {bar}"
    ensures "Test {fmt} {bar}"[..6] == "Test {"
    ensures 'f' !in "Test {" && 'f' !in "Test 3 {bar}"
  {
  }

  lemma UserFacts()
    ensures "{Message {nothing} {user} {foo.bar} a}"[19..25] == "{user}"
    ensures "{Message {nothing} {user} {foo.bar} a}"[..20] == "{Message {nothing} {"
    ensures "{Message {nothing} {user} {foo.bar} a}"[..19] + "Bob" + "{Message {nothing} {user} {foo.bar} a}"[25..]
         == "{Message {nothing} Bob {foo.bar} a}"
    ensures 'u' !in "{Message {nothing} {" && 'u' !in "{Message {nothing} Bob {foo.bar} a}"
  {
  }

  lemma FooBarFacts()
    ensures "{Message {nothing} Bob {foo.bar} a}"[23..32] == "{foo.bar}"
    ensures "{Message {nothing} Bob {foo.bar} a}"[..24] == "{Message {nothing} Bob {"
    ensures "{Message {nothing} Bob {foo.bar} a}"[..23] + "Bar" + "{Message {nothing} Bob {foo.bar} a}"[32..]
         == "{Message {nothing} Bob Bar a}"
    ensures 'f' !in "{Message {nothing} Bob {" && 'f' !in "{Message {nothing} Bob Bar a}"
  {
  }

  lemma BarFacts()
    ensures "Foo {bar}"[4..9] == "{bar}"
    ensures "Foo {bar}"[..5] == "Foo {"
    ensures "Foo {bar}"[..4] + "baz" + "Foo {bar}"[9..] == "Foo baz"
    ensures 'b' !in "Foo {" && '{' !in "Foo baz" && '_' !in "Foo baz"
  {
  }
}
