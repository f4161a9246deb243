/** Bytes, byte strings and the places where one byte string occurs inside another. */
module Bytes {
  type byte = x: int | 0 <= x < 256
  type Text = seq<byte>

  datatype Option<+T> = None | Some(value: T)

  const NUL: byte := 0
  const BS: byte := 8
  const TAB: byte := 9
  const LF: byte := 10
  const FF: byte := 12
  const CR: byte := 13
  const SPACE: byte := 32
  const QUOTE: byte := 34
  const COMMA: byte := 44
  const SLASH: byte := 47
  const COLON: byte := 58
  const LBRACKET: byte := 91
  const BACKSLASH: byte := 92
  const RBRACKET: byte := 93
  const LBRACE: byte := 123
  const RBRACE: byte := 125

  /** A C string with its terminator: a NUL at the end and nowhere else. */
  predicate CString(c: Text) {
    |c| > 0 && c[|c| - 1] == NUL && NulFree(c[..|c| - 1])
  }

  /** The last byte is a NUL. */
  predicate Terminated(c: Text) { |c| > 0 && c[|c| - 1] == NUL }

  predicate NulFree(s: Text) {
    forall i :: 0 <= i < |s| ==> s[i] != NUL
  }

  predicate IsDigit(b: byte) { 48 <= b <= 57 }

  /** `t` occurs in `c` at offset `o`. */
  predicate At(c: Text, o: nat, t: Text) {
    o + |t| <= |c| && c[o..o + |t|] == t
  }

  lemma AtConcat(c: Text, o: nat, a: Text, b: Text)
    requires At(c, o, a + b)
    ensures At(c, o, a) && At(c, o + |a|, b) && o + |a| + |b| <= |c|
  {
    assert c[o..o + |a|] == c[o..o + |a + b|][..|a|];
    assert c[o + |a|..o + |a| + |b|] == c[o..o + |a + b|][|a|..];
    assert (a + b)[..|a|] == a && (a + b)[|a|..] == b;
  }

  lemma AtHead(c: Text, o: nat, t: Text)
    requires At(c, o, t) && t != []
    ensures o + |t| <= |c| && c[o] == t[0] && At(c, o, [t[0]]) && At(c, o + 1, t[1..])
  {
    assert t == [t[0]] + t[1..];
    AtConcat(c, o, [t[0]], t[1..]);
  }

  lemma AtText(c: Text, o: nat, t: Text)
    requires At(c, o, t)
    ensures o + |t| <= |c| && c[o..o + |t|] == t
  {
  }

  lemma AtNothing(c: Text, o: nat)
    requires o <= |c|
    ensures At(c, o, [])
  {
  }

  lemma AtIndex(c: Text, o: nat, t: Text, k: nat)
    requires At(c, o, t) && k < |t|
    ensures o + |t| <= |c| && c[o + k] == t[k]
  {
    assert c[o..o + |t|][k] == t[k];
  }
}
