/**
 * What `cJSON_Minify` does to any text at all: the text cut into blanks, comments, string literals and other bytes,
 * of which the literals and the other bytes stay.
 */
module JsonMinifySyntax {
  import opened Bytes
  import opened JsonMinify

  /**
   * `Line` and `Block` hold what stands inside the comment, `Literal` what stands between the quotes, in steps. A
   * `Stub` is the three characters slash, star, slash, which the code takes for a whole comment.
   */
  datatype Piece = Space(b: byte) | Line(t: Text) | Block(t: Text) | Stub | Literal(xs: seq<Text>) | Other(b: byte)

  function Joined(xs: seq<Text>): Text {
    if xs == [] then [] else xs[0] + Joined(xs[1..])
  }

  function Spell(p: Piece): Text {
    match p
    case Space(b) => [b]
    case Line(t) => [47, 47] + t
    case Block(t) => [47, 42] + t + [42, 47]
    case Stub => [47, 42, 47]
    case Literal(xs) => [34] + Joined(xs) + [34]
    case Other(b) => [b]
  }

  /** One byte inside a literal, or a backslash with the byte behind it. */
  predicate Inner(x: Text) {
    || (|x| == 1 && x[0] != 34 && x[0] != 92 && x[0] != 0)
    || (|x| == 2 && x[0] == 92 && x[1] != 0)
  }

  /** The piece is one, with the byte `next` behind it. */
  predicate Fits(p: Piece, next: byte) {
    match p
    case Space(b) => b in {9, 10, 13, 32}
    case Line(t) => NulFree(t) && 10 !in t && next in {0, 10}
    case Block(t) =>
      NulFree(t) && forall k :: 0 <= k < |t| + 2 ==> !(Spell(p)[k] == 42 && Spell(p)[k + 1] == 47)
    case Stub => true
    case Literal(xs) => forall k :: 0 <= k < |xs| ==> Inner(xs[k])
    case Other(b) => b !in {0, 9, 10, 13, 32, 34} && (b == 47 ==> next !in {42, 47})
  }

  /** From `i` up to a NUL the text is these pieces. */
  predicate Cut(c: Text, i: nat, ps: seq<Piece>)
    decreases |ps|
  {
    i < |c| &&
    if ps == [] then c[i] == 0
    else
      var next := i + |Spell(ps[0])|;
      At(c, i, Spell(ps[0])) && next < |c| && Fits(ps[0], c[next]) && Cut(c, next, ps[1..])
  }

  /** What stays. */
  function Kept(ps: seq<Piece>): Text {
    if ps == [] then []
    else (if ps[0].Literal? || ps[0].Other? then Spell(ps[0]) else []) + Kept(ps[1..])
  }

  // ----- one piece -----

  lemma {:induction false} LineIs(c: Text, i: nat, e: nat)
    requires Terminated(c) && i <= e < |c| && (forall k :: i <= k < e ==> c[k] != 0 && c[k] != 10)
    requires c[e] == 0 || c[e] == 10
    ensures LineEnd(c, i) == e
    decreases e - i
  {
    if i < e { LineIs(c, i + 1, e); }
  }

  lemma {:induction false} LineHas(c: Text, i: nat)
    requires Terminated(c) && i < |c|
    ensures var e := LineEnd(c, i);
            (forall k :: i <= k < e ==> c[k] != 0 && c[k] != 10) && (c[e] == 0 || c[e] == 10)
    decreases |c| - i
  {
    if c[i] != 0 && c[i] != 10 { LineHas(c, i + 1); }
  }

  lemma {:induction false} BlockIs(c: Text, i: nat, e: nat)
    requires Terminated(c) && i <= e && e + 1 < |c| && (forall k :: i <= k <= e ==> c[k] != 0)
    requires c[e] == 42 && c[e + 1] == 47 && forall k :: i <= k < e ==> !(c[k] == 42 && c[k + 1] == 47)
    ensures CommentEnd(c, i) == Some(e + 2)
    decreases e - i
  {
    if i < e { BlockIs(c, i + 1, e); }
  }

  lemma {:induction false} BlockHas(c: Text, i: nat)
    requires Terminated(c) && i < |c| && CommentEnd(c, i).Some?
    ensures var e := CommentEnd(c, i).value - 2;
            && i <= e && e + 2 < |c| && (forall k :: i <= k <= e ==> c[k] != 0)
            && c[e] == 42 && c[e + 1] == 47 && forall k :: i <= k < e ==> !(c[k] == 42 && c[k + 1] == 47)
    decreases |c| - i
  {
    if !(c[i] == 42 && c[i + 1] == 47) { BlockHas(c, i + 1); }
  }

  lemma {:induction false} LiteralIs(c: Text, i: nat, xs: seq<Text>)
    requires Terminated(c) && At(c, i, Joined(xs) + [34]) && (forall k :: 0 <= k < |xs| ==> Inner(xs[k]))
    requires i + |Joined(xs)| + 1 < |c|
    ensures StringEnd(c, i) == Some(i + |Joined(xs)| + 1)
    decreases |xs|
  {
    hide At, Inner;
    if xs == [] {
      AtIndex(c, i, Joined(xs) + [34], 0);
    } else {
      var x, rest := xs[0], Joined(xs[1..]) + [34];
      assert Joined(xs) + [34] == x + rest;
      AtConcat(c, i, x, rest);
      LiteralIs(c, i + |x|, xs[1..]);
      LiteralStep(c, i, x);
    }
  }

  lemma LiteralStep(c: Text, i: nat, x: Text)
    requires Terminated(c) && At(c, i, x) && Inner(x) && i + |x| < |c|
    ensures StringEnd(c, i) == StringEnd(c, i + |x|)
  {
    AtIndex(c, i, x, 0);
    if |x| == 2 { AtIndex(c, i, x, 1); }
  }

  lemma {:induction false} LiteralHas(c: Text, i: nat) returns (xs: seq<Text>)
    requires Terminated(c) && i < |c| && StringEnd(c, i).Some?
    ensures i + |Joined(xs)| + 1 == StringEnd(c, i).value && At(c, i, Joined(xs) + [34])
    ensures forall k :: 0 <= k < |xs| ==> Inner(xs[k])
    decreases |c| - i
  {
    if c[i] == 34 {
      xs := [];
    } else {
      var n := if c[i] == 92 then 2 else 1;
      var x := c[i..i + n];
      var more := LiteralHas(c, i + n);
      xs := [x] + more;
      assert xs[1..] == more;
      var tail := Joined(more) + [34];
      assert c[i..i + n + |tail|] == x + c[i + n..i + n + |tail|];
      assert Joined(xs) + [34] == x + tail;
    }
  }

  /** One turn of the loop takes exactly one piece. */
  lemma TurnTakes(c: Text, i: nat, p: Piece)
    requires Terminated(c) && At(c, i, Spell(p)) && i + |Spell(p)| < |c| && Fits(p, c[i + |Spell(p)|])
    ensures c[i] != 0 && Turn(c, i) == Some((if p.Literal? || p.Other? then Spell(p) else [], i + |Spell(p)|))
  {
    var t, next := Spell(p), i + |Spell(p)|;
    forall k: nat | k < |t| ensures c[i + k] == t[k] { AtIndex(c, i, t, k); }
    assert c[i + 0] == t[0];
    match p
    case Space(_) =>
    case Line(u) =>
      assert c[i + 1] == t[1] == 47;
      forall k | i <= k < next ensures c[k] != 0 && c[k] != 10 {
        assert c[i + (k - i)] == t[k - i];
        if k - i >= 2 { assert t[k - i] == u[k - i - 2]; }
      }
      LineIs(c, i, next);
    case Block(u) =>
      BlockTaken(c, i, u);
    case Stub =>
      assert c[i + 1] == t[1] && c[i + 2] == t[2];
      BlockIs(c, i, i + 1);
    case Literal(xs) =>
      assert t == [34] + (Joined(xs) + [34]);
      AtConcat(c, i, [34], Joined(xs) + [34]);
      LiteralIs(c, i + 1, xs);
      AtText(c, i, t);
    case Other(_) =>
  }

  lemma BlockTaken(c: Text, i: nat, u: Text)
    requires Terminated(c) && At(c, i, Spell(Block(u))) && i + |u| + 4 < |c| && Fits(Block(u), 0)
    ensures c[i] == 47 && c[i + 1] == 42 && CommentEnd(c, i) == Some(i + |u| + 4)
  {
    var t := Spell(Block(u));
    forall k: nat | k < |t| ensures c[i + k] == t[k] { AtIndex(c, i, t, k); }
    var e := i + |u| + 2;
    assert c[i + 0] == t[0] && c[i + 1] == t[1];
    assert c[i + (|u| + 2)] == t[|u| + 2] == 42 && c[i + (|u| + 3)] == t[|u| + 3] == 47;
    forall k | i <= k <= e ensures c[k] != 0 && (k < e ==> !(c[k] == 42 && c[k + 1] == 47)) {
      assert c[i + (k - i)] == t[k - i];
      if 2 <= k - i < |u| + 2 { assert t[k - i] == u[k - i - 2]; }
      if k < e { assert c[i + (k - i + 1)] == t[k - i + 1]; }
    }
    BlockIs(c, i, e);
  }

  /** Every turn of the loop takes a piece. */
  lemma TurnHas(c: Text, i: nat) returns (p: Piece)
    requires Terminated(c) && i < |c| && c[i] != 0 && Turn(c, i).Some?
    ensures At(c, i, Spell(p)) && i + |Spell(p)| == Turn(c, i).value.1 < |c| && Fits(p, c[i + |Spell(p)|])
  {
    if c[i] == 47 && c[i + 1] == 47 {
      LineHas(c, i);
      p := LineCut(c, i, LineEnd(c, i));
    } else if c[i] == 47 && c[i + 1] == 42 {
      BlockHas(c, i);
      p := BlockCut(c, i, CommentEnd(c, i).value);
    } else if c[i] == 34 {
      p := LiteralCut(c, i);
    } else {
      p := if IsMinifyBlank(c[i]) then Space(c[i]) else Other(c[i]);
    }
  }

  lemma LineCut(c: Text, i: nat, next: nat) returns (p: Piece)
    requires i + 2 <= next < |c| && c[i] == 47 && c[i + 1] == 47 && (c[next] == 0 || c[next] == 10)
    requires forall k :: i <= k < next ==> c[k] != 0 && c[k] != 10
    ensures p.Line? && At(c, i, Spell(p)) && i + |Spell(p)| == next && Fits(p, c[next])
  {
    p := Line(c[i + 2..next]);
    assert c[i..next] == [47, 47] + c[i + 2..next];
    assert forall k :: 0 <= k < |p.t| ==> p.t[k] == c[i + 2 + k];
  }

  lemma BlockCut(c: Text, i: nat, next: nat) returns (p: Piece)
    requires i + 3 <= next < |c| && c[i] == 47 && c[i + 1] == 42 && c[next - 2] == 42 && c[next - 1] == 47
    requires forall k :: i <= k < next ==> c[k] != 0
    requires forall k :: i <= k < next - 2 ==> !(c[k] == 42 && c[k + 1] == 47)
    ensures At(c, i, Spell(p)) && i + |Spell(p)| == next && Fits(p, c[next]) && !p.Literal? && !p.Other?
  {
    p := if next == i + 3 then Stub else Block(c[i + 2..next - 2]);
    assert c[i..next] == Spell(p);
    assert forall k :: 0 <= k < |Spell(p)| ==> Spell(p)[k] == c[i + k];
  }

  lemma LiteralCut(c: Text, i: nat) returns (p: Piece)
    requires Terminated(c) && i + 1 < |c| && c[i] == 34 && StringEnd(c, i + 1).Some?
    ensures At(c, i, Spell(p)) && i + |Spell(p)| == StringEnd(c, i + 1).value && Fits(p, 0) && p.Literal?
  {
    var xs := LiteralHas(c, i + 1);
    var next := StringEnd(c, i + 1).value;
    p := Literal(xs);
    AtText(c, i + 1, Joined(xs) + [34]);
    assert c[i..next] == [34] + c[i + 1..next];
    assert Spell(p) == [34] + (Joined(xs) + [34]);
  }

  // ----- whole texts -----

  lemma {:induction false} CutMinifies(c: Text, i: nat, ps: seq<Piece>)
    requires Terminated(c) && Cut(c, i, ps)
    ensures MinifyFrom(c, i) == Some(Kept(ps))
    decreases |ps|
  {
    hide Turn, Spell, Fits, At;
    if ps != [] {
      TurnTakes(c, i, ps[0]);
      CutMinifies(c, i + |Spell(ps[0])|, ps[1..]);
    }
  }

  lemma {:induction false} MinifiedIsCut(c: Text, i: nat) returns (ps: seq<Piece>)
    requires Terminated(c) && i < |c| && MinifyFrom(c, i).Some?
    ensures Cut(c, i, ps)
    decreases |c| - i
  {
    hide Turn, Spell, Fits, At;
    if c[i] == NUL {
      ps := [];
    } else {
      var p := TurnHas(c, i);
      var rest := MinifiedIsCut(c, i + |Spell(p)|);
      ps := [p] + rest;
      assert ps[1..] == rest;
    }
  }

  /**
   * For every text: cJSON_Minify leaves `m` if and only if the text up to its NUL is blanks, comments, string literals
   * and other bytes, of which the literals and the other bytes make `m`. No other text is minified at all.
   */
  lemma MinifiedIffCut(c: Text, m: Text)
    requires Terminated(c)
    ensures MinifyFrom(c, 0) == Some(m) <==> exists ps :: Cut(c, 0, ps) && m == Kept(ps)
  {
    hide Cut, Kept, MinifyFrom;
    if MinifyFrom(c, 0) == Some(m) {
      var ps := MinifiedIsCut(c, 0);
      CutMinifies(c, 0, ps);
    }
    forall ps | Cut(c, 0, ps) ensures MinifyFrom(c, 0) == Some(Kept(ps)) { CutMinifies(c, 0, ps); }
  }
}
