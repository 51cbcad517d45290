/** Upper and lower case of ASCII letters; every other character is left as it is. */
module Ascii {
  function LowerChar(c: char): char { if 'A' <= c <= 'Z' then (c as int + 32) as char else c }

  function UpperChar(c: char): char { if 'a' <= c <= 'z' then (c as int - 32) as char else c }

  /** The two cases of a letter are in the same place of the alphabet, and nothing else changes. */
  lemma Cases(i: nat, c: char)
    requires i < 26
    ensures LowerChar(('A' as int + i) as char) == ('a' as int + i) as char == LowerChar(('a' as int + i) as char)
    ensures UpperChar(('a' as int + i) as char) == ('A' as int + i) as char == UpperChar(('A' as int + i) as char)
    ensures !('A' <= c <= 'Z') ==> LowerChar(c) == c
    ensures !('a' <= c <= 'z') ==> UpperChar(c) == c
  {}

  function Lower(s: string): (r: string)
    ensures |r| == |s|
  {
    seq(|s|, i requires 0 <= i < |s| => LowerChar(s[i]))
  }

  function Upper(s: string): (r: string)
    ensures |r| == |s|
  {
    seq(|s|, i requires 0 <= i < |s| => UpperChar(s[i]))
  }
}
