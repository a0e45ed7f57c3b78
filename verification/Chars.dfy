/** Characters of strings, as src/libc/ctype.c treats them. */
module Chars {
  /** The terminator. */
  const NUL := 0 as char

  /** tolower. */
  function Lower(c: char): char {
    if 'A' <= c <= 'Z' then (c as int + 32) as char else c
  }

  const CAPITALS := "ABCDEFGHIJKLMNOPQRSTUVWXYZ"
  const SMALL := "abcdefghijklmnopqrstuvwxyz"

  /** It makes two characters equal exactly if they are, or are the two cases of one of the 26 letters. */
  lemma LowerExactly(c: char, d: char)
    ensures Lower(c) == Lower(d)
      <==> c == d || exists i | 0 <= i < 26 ::
        (c == CAPITALS[i] && d == SMALL[i]) || (c == SMALL[i] && d == CAPITALS[i])
  {
    forall i | 0 <= i < 26 { Letter(i); }
    if 'A' <= c <= 'Z' { Letter(c as int - 'A' as int); }
    if 'A' <= d <= 'Z' { Letter(d as int - 'A' as int); }
  }

  lemma Letter(i: nat)
    requires i < 26
    ensures CAPITALS[i] as int == 'A' as int + i && SMALL[i] as int == 'a' as int + i
  {
  }
}
