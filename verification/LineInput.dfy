/** `parseLine`: a command line cut into words and key-value pairs, through one scratch buffer. */
module LineInput {
  import opened Bytes

  const ROOM: nat := 1000         // sizeof (m_elem)
  const APOS: byte := 39
  const EQUALS: byte := 61
  const BAR: byte := 124

  predicate IsBlank(c: byte) { c == SPACE || c == TAB }

  predicate IsSep(c: byte) { c == EQUALS || c == COLON }

  predicate IsQuote(c: byte) { c == APOS || c == QUOTE || c == BAR }

  /** LR_OK with the elements, LR_Syntax, the exception 20, or a write behind the scratch buffer. */
  datatype Outcome = Accepted(elems: seq<Text>) | Syntax | Thrown | Overrun

  datatype Mode = Between | Infirst | Startsecond | Insecond | Endsecond

  /** The parser between two characters: `cur` is what is in the scratch buffer. */
  datatype Config = Config(mode: Mode, delim: byte, cur: Text, elems: seq<Text>)

  const START := Config(Between, NUL, [], [])

  datatype Move = On(g: Config) | Bad(outcome: Outcome)

  /** A C string, read from its buffer: it ends at the first NUL. */
  function CutAtNul(t: Text): (r: Text)
    ensures r <= t && (NulFree(t) ==> r == t)
  {
    if t == [] || t[0] == NUL then [] else [t[0]] + CutAtNul(t[1..])
  }

  /** finishElem. */
  function Finished(g: Config): Move {
    if |g.cur| >= ROOM then Bad(Overrun) else On(Config(Between, g.delim, [], g.elems + [CutAtNul(g.cur)]))
  }

  /** putCharInElem. */
  function Put(g: Config, c: byte): Move {
    if |g.cur| >= ROOM then Bad(Overrun)
    else if |g.cur| + 1 >= ROOM then Bad(Thrown)
    else On(g.(cur := g.cur + [c]))
  }

  /** The write that is not checked. */
  function PutUnchecked(g: Config, c: byte): Move {
    if |g.cur| >= ROOM then Bad(Overrun) else On(g.(cur := g.cur + [c]))
  }

  /** The switch on one character that is no line break. */
  function Take(g: Config, c: byte): Move {
    match g.mode
    case Between =>
      if IsBlank(c) then On(g) else if IsSep(c) then Bad(Syntax) else Put(g.(mode := Infirst), c)
    case Infirst =>
      if IsBlank(c) then Finished(g)
      else if IsSep(c) then Put(g.(mode := Startsecond, delim := NUL), c)
      else Put(g, c)
    case Startsecond =>
      if IsBlank(c) || IsSep(c) then Bad(Syntax)
      else Put(g.(mode := Insecond, delim := if IsQuote(c) then c else g.delim), c)
    case Insecond =>
      if IsBlank(c) && g.delim == NUL then Finished(g)
      else PutUnchecked(g.(mode := if c == g.delim then Endsecond else Insecond), c)
    case Endsecond =>
      if IsBlank(c) then Finished(g) else Bad(Syntax)
  }

  /** The end of the line. */
  function AtEnd(g: Config): Outcome {
    if g.cur != [] && (g.mode.Infirst? || g.mode.Endsecond? || (g.mode.Insecond? && g.delim == NUL)) then
      match Finished(g)
      case On(done) => Accepted(done.elems)
      case Bad(outcome) => outcome
    else Syntax
  }

  /** The whole loop, as a function of what is still to be read. */
  function Scan(t: Text, g: Config): Outcome {
    if t == [] then AtEnd(g)
    else if t[0] == LF then Scan(t[1..], g)
    else
      match Take(g, t[0])
      case On(next) => Scan(t[1..], next)
      case Bad(outcome) => outcome
  }

  // ----- the parser itself -----

  lemma {:induction false} CutShort(t: Text, e: nat)
    requires e < |t| && t[e] == NUL
    ensures CutAtNul(t) == CutAtNul(t[..e])
  {
    if e > 0 && t[0] != NUL {
      CutShort(t[1..], e - 1);
      assert t[..e][1..] == t[1..][..e - 1];
    }
  }

  lemma ScanTurn(line: Text, d: nat, g: Config)
    requires d < |line|
    ensures Scan(line[d..], g) ==
            if line[d] == LF then Scan(line[d + 1..], g)
            else match Take(g, line[d])
                 case On(next) => Scan(line[d + 1..], next)
                 case Bad(outcome) => outcome
  {
    hide Take, AtEnd;
    assert line[d..][1..] == line[d + 1..];
  }

  lemma ScanEnd(line: Text, g: Config)
    ensures Scan(line[|line|..], g) == AtEnd(g)
  {
  }

  class Parser {
    /** m_elem. */
    const elem: array<byte>

    constructor ()
      ensures fresh(elem) && elem.Length == ROOM
    {
      elem := new byte[ROOM];
    }

    /** finishElem: terminates the buffer and copies it out as a C string. */
    method FinishElem(e: nat, elems: seq<Text>) returns (now: seq<Text>)
      requires e < elem.Length
      modifies elem
      ensures now == elems + [CutAtNul(old(elem[..e]))]
    {
      elem[e] := NUL;
      CutShort(elem[..], e);
      assert elem[..][..e] == old(elem[..e]);
      now := elems + [CutAtNul(elem[..])];
    }

    /** putCharInElem, and with `checked` off the write in its place; the bad outcome, if there is one. */
    method PutCharInElem(c: byte, e: nat, checked: bool) returns (bad: Option<Outcome>, next: nat)
      requires e <= elem.Length == ROOM
      modifies elem
      ensures e == ROOM ==> bad == Some(Overrun)
      ensures e < ROOM ==> bad == (if checked && e + 1 == ROOM then Some(Thrown) else None)
      ensures e < ROOM ==> next == e + 1 && elem[..next] == old(elem[..e]) + [c]
    {
      if e == elem.Length { return Some(Overrun), e; }
      elem[e] := c;
      next := e + 1;
      bad := if checked && next >= elem.Length then Some(Thrown) else None;
    }

    /** What the switch says to do with a character. */
    method Turn(c: byte, mode: Mode, delim: byte, e: nat, elems: seq<Text>)
      returns (bad: Option<Outcome>, mode': Mode, delim': byte, next: nat, elems': seq<Text>)
      requires e <= elem.Length == ROOM
      modifies elem
      ensures match Take(Config(mode, delim, old(elem[..e]), elems), c)
              case Bad(outcome) => bad == Some(outcome)
              case On(g) => bad == None && next <= ROOM && g == Config(mode', delim', elem[..next], elems')
    {
      hide CutAtNul;
      mode', delim', next, elems', bad := mode, delim, e, elems, None;
      var finish, put, checked := false, false, true;
      var isSep1, isSep2 := IsBlank(c), IsSep(c);
      match mode {
        case Between =>
          if isSep1 { return; }
          if isSep2 { bad := Some(Syntax); return; }
          mode', put := Infirst, true;
        case Infirst =>
          if isSep1 {
            finish := true;
          } else {
            if isSep2 { mode', delim' := Startsecond, NUL; }
            put := true;
          }
        case Startsecond =>
          if isSep1 || isSep2 { bad := Some(Syntax); return; }
          if IsQuote(c) { delim' := c; }
          mode', put := Insecond, true;
        case Insecond =>
          if isSep1 && delim == NUL {
            finish := true;
          } else {
            if c == delim { mode' := Endsecond; }
            put, checked := true, false;
          }
        case Endsecond =>
          if !isSep1 { bad := Some(Syntax); return; }
          finish := true;
      }
      if finish {
        if e == elem.Length { bad := Some(Overrun); return; }
        elems' := FinishElem(e, elems);
        mode', next := Between, 0;
        assert elem[..0] == [];
      }
      if put { bad, next := PutCharInElem(c, e, checked); }
    }

    /** parseLine. */
    method ParseLine(line: Text) returns (outcome: Outcome)
      requires elem.Length == ROOM
      modifies elem
      ensures outcome == Scan(line, START)
    {
      hide Scan, Take, AtEnd;
      var d, e, delim, mode, elems: seq<Text> := 0, 0, NUL, Between, [];
      assert line[0..] == line && elem[..0] == [];
      while d < |line|
        invariant 0 <= d <= |line| && 0 <= e <= ROOM
        invariant Scan(line, START) == Scan(line[d..], Config(mode, delim, elem[..e], elems))
      {
        ScanTurn(line, d, Config(mode, delim, elem[..e], elems));
        var c := line[d];
        d := d + 1;
        if c != LF {
          var bad;
          bad, mode, delim, e, elems := Turn(c, mode, delim, e, elems);
          if bad.Some? { return bad.value; }
        }
      }
      ScanEnd(line, Config(mode, delim, elem[..e], elems));
      outcome := Last(mode, delim, e, elems);
    }

    /** The end of the line. */
    method Last(mode: Mode, delim: byte, e: nat, elems: seq<Text>) returns (outcome: Outcome)
      requires e <= elem.Length == ROOM
      modifies elem
      ensures outcome == AtEnd(Config(mode, delim, old(elem[..e]), elems))
    {
      if e != 0 {
        if mode == Infirst || mode == Endsecond || (mode == Insecond && delim == NUL) {
          if e == elem.Length { return Overrun; }
          var now := FinishElem(e, elems);
          return Accepted(now);
        }
      }
      return Syntax;
    }
  }

  // ----- what is accepted -----

  predicate BlankChar(c: byte) { c in {32, 9} }             // space, tab

  predicate SepChar(c: byte) { c in {61, 58} }              // = :

  predicate QuoteChar(c: byte) { c in {39, 34, 124} }       // ' " |

  /** A character of a plain word. */
  predicate IsPlain(c: byte) { !BlankChar(c) && !SepChar(c) }

  predicate AllPlain(t: Text) { forall k :: 0 <= k < |t| ==> IsPlain(t[k]) }

  predicate NoBlanks(t: Text) { forall k :: 0 <= k < |t| ==> !BlankChar(t[k]) }

  /** Everything in quotes up to the first one of the same kind, which is the last character. */
  predicate QuotedText(t: Text, q: byte) {
    t != [] && t[|t| - 1] == q && forall k :: 0 <= k < |t| - 1 ==> t[k] != q
  }

  /** A value: bare, without blanks, or quoted. */
  predicate Value(v: Text) {
    v != [] && IsPlain(v[0]) && if QuoteChar(v[0]) then QuotedText(v[1..], v[0]) else NoBlanks(v[1..])
  }

  /** A plain word, or a key, a separator and a value; `k` is where the separator stands. */
  predicate Pair(x: Text, k: nat) {
    0 < k < |x| && AllPlain(x[..k]) && SepChar(x[k]) && Value(x[k + 1..])
  }

  ghost predicate Element(x: Text) {
    |x| < ROOM && x != [] && (AllPlain(x) || exists k: nat :: Pair(x, k))
  }

  /** `t` is the elements, each behind any number of blanks (some, between two of them), and nothing else. */
  ghost predicate Joined(t: Text, es: seq<Text>)
    decreases |t|
  {
    t != [] && es != [] &&
    if BlankChar(t[0]) then Joined(t[1..], es)
    else Element(es[0]) && es[0] <= t && Follows(t[|es[0]|..], es[1..])
  }

  /** What may stand behind an element. */
  ghost predicate Follows(t: Text, es: seq<Text>)
    decreases |t|, 0
  {
    if t == [] then es == [] else BlankChar(t[0]) && Joined(t[1..], es)
  }

  function Strip(t: Text): Text {
    if t == [] then [] else if t[0] == LF then Strip(t[1..]) else [t[0]] + Strip(t[1..])
  }

  lemma {:induction false} ScanStrip(t: Text, g: Config)
    ensures Scan(t, g) == Scan(Strip(t), g)
  {
    hide Take, AtEnd;
    if t != [] {
      if t[0] == LF {
        ScanStrip(t[1..], g);
      } else {
        var u := [t[0]] + Strip(t[1..]);
        assert u[0] == t[0] && u[1..] == Strip(t[1..]);
        if Take(g, t[0]).On? { ScanStrip(t[1..], Take(g, t[0]).g); }
      }
    }
  }

  // ----- the two sides, one character at a time -----

  /** What may complete an element that is in this state. */
  ghost predicate Rest(mode: Mode, delim: byte, y: Text) {
    match mode
    case Between => false
    case Infirst => AllPlain(y) || exists k: nat :: KeyRest(y, k)
    case Startsecond => Value(y)
    case Insecond => if delim == NUL then NoBlanks(y) else QuotedText(y, delim)
    case Endsecond => y == []
  }

  predicate KeyRest(y: Text, k: nat) {
    k < |y| && AllPlain(y[..k]) && IsSep(y[k]) && Value(y[k + 1..])
  }

  /** The character ends the element. */
  predicate Finishes(mode: Mode, delim: byte, c: byte) {
    IsBlank(c) && (mode.Infirst? || mode.Endsecond? || (mode.Insecond? && delim == NUL))
  }

  /** The state after a character that becomes part of the element. */
  function NextMode(mode: Mode, delim: byte, c: byte): Option<(Mode, byte)> {
    match mode
    case Between => if IsPlain(c) then Some((Infirst, delim)) else None
    case Infirst => if IsBlank(c) then None else if IsSep(c) then Some((Startsecond, NUL)) else Some((Infirst, delim))
    case Startsecond => if IsPlain(c) then Some((Insecond, if IsQuote(c) then c else delim)) else None
    case Insecond =>
      if IsBlank(c) && delim == NUL then None else Some((if c == delim then Endsecond else Insecond, delim))
    case Endsecond => None
  }

  lemma TakeIs(g: Config, c: byte)
    ensures Finishes(g.mode, g.delim, c) ==> Take(g, c) == Finished(g)
    ensures g.mode.Between? && IsBlank(c) ==> Take(g, c) == On(g)
    ensures !Finishes(g.mode, g.delim, c) && !(g.mode.Between? && IsBlank(c)) ==>
              match NextMode(g.mode, g.delim, c)
              case None => Take(g, c) == Bad(Syntax)
              case Some((mode, delim)) =>
                Take(g, c) == (if g.mode.Insecond? then PutUnchecked(g.(mode := mode, delim := delim), c)
                               else Put(g.(mode := mode, delim := delim), c))
  {
  }

  lemma RestInfirst(y: Text)
    requires y != []
    ensures Rest(Infirst, NUL, y) <==>
            (IsSep(y[0]) && Value(y[1..])) || (IsPlain(y[0]) && Rest(Infirst, NUL, y[1..]))
  {
    if AllPlain(y) {
      assert forall k :: 0 <= k < |y[1..]| ==> y[1..][k] == y[k + 1];
    }
    if k: nat :| KeyRest(y, k) {
      if k > 0 {
        assert y[..k][0] == y[0] && y[..k][1..] == y[1..][..k - 1];
        assert KeyRest(y[1..], k - 1);
      }
    }
    if IsSep(y[0]) && Value(y[1..]) { assert KeyRest(y, 0); }
    if IsPlain(y[0]) && AllPlain(y[1..]) {
      forall k | 0 <= k < |y| ensures IsPlain(y[k]) { if k > 0 { assert y[k] == y[1..][k - 1]; } }
    }
    if IsPlain(y[0]) {
      if k: nat :| KeyRest(y[1..], k) {
        assert y[..k + 1] == [y[0]] + y[1..][..k];
        assert KeyRest(y, k + 1);
      }
    }
  }

  lemma RestInsecond(y: Text, delim: byte)
    requires y != [] && NulFree(y)
    ensures Rest(Insecond, delim, y) <==>
            !(IsBlank(y[0]) && delim == NUL)
            && (if y[0] == delim then y[1..] == [] else Rest(Insecond, delim, y[1..]))
  {
    var t := y[1..];
    assert forall k :: 0 <= k < |t| ==> t[k] == y[k + 1];
    if delim == NUL {
      if !IsBlank(y[0]) && NoBlanks(t) {
        forall k | 0 <= k < |y| ensures !IsBlank(y[k]) { if k > 0 { assert y[k] == t[k - 1]; } }
      }
    } else if y[0] != delim && QuotedText(t, delim) {
      forall k | 0 <= k < |y| - 1 ensures y[k] != delim { if k > 0 { assert y[k] == t[k - 1]; } }
    }
  }

  /** One character of a completion. */
  lemma RestStep(mode: Mode, delim: byte, y: Text)
    requires y != [] && NulFree(y) && mode != Between && (mode.Startsecond? ==> delim == NUL)
    ensures Rest(mode, delim, y) <==>
            !Finishes(mode, delim, y[0]) && NextMode(mode, delim, y[0]).Some?
            && Rest(NextMode(mode, delim, y[0]).value.0, NextMode(mode, delim, y[0]).value.1, y[1..])
  {
    match mode
    case Infirst => RestInfirst(y);
    case Insecond => RestInsecond(y, delim);
    case _ =>
  }

  lemma PairFirst(x: Text, k: nat)
    requires k > 0
    ensures Pair(x, k) ==> IsPlain(x[0])
  {
    if Pair(x, k) { assert x[..k][0] == x[0]; }
  }

  lemma ElementRest(x: Text)
    ensures Element(x) <==> 0 < |x| < ROOM && IsPlain(x[0]) && Rest(Infirst, NUL, x[1..])
  {
    if 0 < |x| < ROOM {
      RestInfirst(x);
      if Element(x) {
        if !AllPlain(x) {
          var k: nat :| Pair(x, k);
          PairFirst(x, k);
          assert KeyRest(x, k);
        }
      } else if IsPlain(x[0]) && Rest(Infirst, NUL, x) {
        if !AllPlain(x) {
          var k: nat :| KeyRest(x, k);
          assert Pair(x, k);
        }
      }
    }
  }

  /** The elements `es` are what is still to come, the first of them perhaps begun. */
  ghost predicate Accepts(g: Config, t: Text, es: seq<Text>) {
    if g.mode.Between? then Joined(t, es) else Completes(g, t, es)
  }

  ghost predicate Completes(g: Config, t: Text, es: seq<Text>) {
    && es != [] && g.cur <= es[0] && |es[0]| < ROOM
    && es[0][|g.cur|..] <= t && Rest(g.mode, g.delim, es[0][|g.cur|..])
    && Follows(t[|es[0]| - |g.cur|..], es[1..])
  }

  predicate Sound(g: Config) {
    && NulFree(g.cur) && (g.mode.Between? <==> g.cur == []) && |g.cur| <= ROOM
    && (g.mode.Startsecond? ==> g.delim == NUL) && (g.mode.Infirst? || g.mode.Startsecond? ==> |g.cur| < ROOM)
  }

  lemma RestEmpty(mode: Mode, delim: byte)
    ensures Rest(mode, delim, []) <==> mode.Infirst? || mode.Endsecond? || (mode.Insecond? && delim == NUL)
  {
  }

  /** Elements once found stay. */
  lemma {:induction false} ScanExtends(t: Text, g: Config)
    ensures Scan(t, g).Accepted? ==> g.elems <= Scan(t, g).elems && |g.elems| < |Scan(t, g).elems|
    decreases |t|
  {
    if t != [] {
      if t[0] == LF {
        ScanExtends(t[1..], g);
      } else if Take(g, t[0]).On? {
        ScanExtends(t[1..], Take(g, t[0]).g);
      }
    }
  }

  lemma SameBehind(a: seq<Text>, b: seq<Text>, c: seq<Text>)
    ensures a + b == a + c <==> b == c
  {
    assert (a + b)[|a|..] == b && (a + c)[|a|..] == c;
  }

  lemma EndIff(g: Config, es: seq<Text>)
    requires Sound(g)
    ensures AtEnd(g) == Accepted(g.elems + es) <==> Accepts(g, [], es)
  {
    RestEmpty(g.mode, g.delim);
    if es != [] && g.cur <= es[0] && es[0][|g.cur|..] == [] { assert es[0] == g.cur; }
    SameBehind(g.elems, es, [g.cur]);
    if es == [g.cur] { assert es[0][|g.cur|..] == [] && es[1..] == []; }
    if es != [] && es[1..] == [] { assert es == [es[0]]; }
  }

  /** A begun element that cannot stop here takes the next character. */
  lemma MustGoOn(g: Config, t: Text, es: seq<Text>)
    requires Sound(g) && t != [] && NulFree(t) && g.mode != Between && Completes(g, t, es) && es[0] != g.cur
    ensures var y := es[0][|g.cur|..];
            y != [] && y[0] == t[0] && NulFree(y) && es[0] == g.cur + y
  {
    var y := es[0][|g.cur|..];
    assert es[0] == g.cur + y;
    assert g.cur + [] == g.cur;
    assert forall k :: 0 <= k < |y| ==> y[k] == t[k];
  }

  lemma CompletesStops(g: Config, t: Text, es: seq<Text>)
    requires Sound(g) && t != [] && g.mode != Between && es != [] && es[0] == g.cur
    ensures Completes(g, t, es) <==> |g.cur| < ROOM && Finishes(g.mode, g.delim, t[0]) && Joined(t[1..], es[1..])
  {
    hide Joined, Rest;
    RestEmpty(g.mode, g.delim);
    assert es[0][|g.cur|..] == [] && t[0..] == t;
  }

  lemma CompletesGoesOn(g: Config, next: Config, t: Text, es: seq<Text>)
    requires Sound(g) && t != [] && NulFree(t) && g.mode != Between && es != [] && es[0] != g.cur
    requires !Finishes(g.mode, g.delim, t[0]) && NextMode(g.mode, g.delim, t[0]) == Some((next.mode, next.delim))
    requires next.cur == g.cur + [t[0]]
    ensures Completes(g, t, es) <==> Completes(next, t[1..], es)
  {
    hide Rest, Follows, NextMode, Finishes;
    if Completes(g, t, es) {
      MustGoOn(g, t, es);
      var y := es[0][|g.cur|..];
      RestStep(g.mode, g.delim, y);
      GoesOnTexts(g.cur, t, es[0]);
    }
    if Completes(next, t[1..], es) {
      GoesOnTexts(g.cur, t, es[0]);
      var y := es[0][|g.cur|..];
      assert forall k :: 0 <= k < |y| ==> y[k] == t[k];
      RestStep(g.mode, g.delim, y);
    }
  }

  lemma GoesOnTexts(cur: Text, t: Text, x: Text)
    requires t != []
    ensures (cur <= x && x != cur && x[|cur|..] <= t) <==> (cur + [t[0]] <= x && x[|cur| + 1..] <= t[1..])
    ensures cur + [t[0]] <= x && x[|cur| + 1..] <= t[1..] ==>
              x[|cur|..] == [t[0]] + x[|cur| + 1..] && |x| - |cur| <= |t|
              && t[|x| - |cur|..] == t[1..][|x| - |cur| - 1..]
  {
    if cur <= x && x != cur && x[|cur|..] <= t {
      assert x == cur + x[|cur|..] && x[|cur|] == t[0];
      assert x[|cur|..][1..] == x[|cur| + 1..];
    }
    if cur + [t[0]] <= x && x[|cur| + 1..] <= t[1..] {
      assert x[|cur|] == (cur + [t[0]])[|cur|] == t[0];
      assert t == [t[0]] + t[1..];
      assert x[|cur|..] == [t[0]] + x[|cur| + 1..];
    }
  }

  lemma JoinedGoesOn(next: Config, t: Text, es: seq<Text>)
    requires t != [] && !IsBlank(t[0]) && next.mode == Infirst && next.cur == [t[0]] && IsPlain(t[0])
    ensures Joined(t, es) <==> Completes(next, t[1..], es)
  {
    hide Rest, Follows;
    if es != [] {
      ElementRest(es[0]);
      GoesOnTexts([], t, es[0]);
      assert [] + [t[0]] == [t[0]];
      RestIgnoresDelim(next.delim, es[0][if es[0] == [] then 0 else 1..]);
      assert es[0][0..] == es[0];
    }
  }

  lemma RestIgnoresDelim(delim: byte, y: Text)
    ensures Rest(Infirst, delim, y) <==> Rest(Infirst, NUL, y)
  {
  }

  lemma CompletesTooLong(g: Config, t: Text, es: seq<Text>)
    requires Sound(g) && t != [] && NulFree(t) && g.mode != Between
    requires |g.cur| >= ROOM || (!Finishes(g.mode, g.delim, t[0]) && !(g.mode.Insecond?) && |g.cur| + 1 >= ROOM)
    ensures !Completes(g, t, es)
  {
    hide Rest, Finishes, Joined;
    if es != [] && es[0] == g.cur { CompletesStops(g, t, es); }
    if Completes(g, t, es) { MustGoOn(g, t, es); }
  }

  lemma CompletesBlocked(g: Config, t: Text, es: seq<Text>)
    requires Sound(g) && t != [] && NulFree(t) && g.mode != Between
    requires !Finishes(g.mode, g.delim, t[0]) && NextMode(g.mode, g.delim, t[0]).None?
    ensures !Completes(g, t, es)
  {
    if es != [] && es[0] == g.cur { CompletesStops(g, t, es); }
    if Completes(g, t, es) {
      MustGoOn(g, t, es);
      RestStep(g.mode, g.delim, es[0][|g.cur|..]);
    }
  }

  lemma CompletesFinishes(g: Config, t: Text, es: seq<Text>)
    requires Sound(g) && t != [] && NulFree(t) && g.mode != Between && Finishes(g.mode, g.delim, t[0])
    ensures Completes(g, t, es) ==> es[0] == g.cur
  {
    if Completes(g, t, es) && es[0] != g.cur {
      MustGoOn(g, t, es);
      RestStep(g.mode, g.delim, es[0][|g.cur|..]);
    }
  }

  lemma JoinedBlocked(t: Text, es: seq<Text>)
    requires t != [] && IsSep(t[0])
    ensures !Joined(t, es)
  {
    if es != [] { ElementRest(es[0]); }
  }

  lemma TailOf(t: Text)
    requires t != [] && NulFree(t) && LF !in t
    ensures NulFree(t[1..]) && LF !in t[1..] && t[0] != NUL && t[0] != LF
  {
  }

  /** A blank ends the element. */
  lemma {:induction false} FinishIff(t: Text, g: Config, es: seq<Text>)
    requires Sound(g) && t != [] && NulFree(t) && LF !in t && g.mode != Between && Finishes(g.mode, g.delim, t[0])
    ensures Scan(t, g) == Accepted(g.elems + es) <==> Completes(g, t, es)
    decreases |t|, 0
  {
    hide Joined, Rest, Finishes, Completes, Take, AtEnd;
    TailOf(t);
    TakeIs(g, t[0]);
    CompletesFinishes(g, t, es);
    if |g.cur| >= ROOM {
      CompletesTooLong(g, t, es);
    } else {
      var next := Config(Between, g.delim, [], g.elems + [g.cur]);
      if es == [] {
        NothingCompletes(g, t);
        ScanExtends(t[1..], next);
        assert g.elems + es == g.elems;
      } else if es[0] == g.cur {
        CompletesStops(g, t, es);
        ScanIff(t[1..], next, es[1..]);
        assert next.elems + es[1..] == g.elems + es;
      } else {
        ScanExtends(t[1..], next);
        assert (g.elems + es)[|g.elems|] != next.elems[|g.elems|];
      }
    }
  }

  lemma NothingCompletes(g: Config, t: Text)
    ensures !Completes(g, t, [])
  {
  }

  /** A character goes into the element, or is refused. */
  lemma {:induction false} PutIff(t: Text, g: Config, es: seq<Text>)
    requires Sound(g) && t != [] && NulFree(t) && LF !in t && g.mode != Between && !Finishes(g.mode, g.delim, t[0])
    ensures Scan(t, g) == Accepted(g.elems + es) <==> Completes(g, t, es)
    decreases |t|, 0
  {
    hide Joined, Rest, Finishes, Completes, NextMode, Take, AtEnd;
    TailOf(t);
    TakeIs(g, t[0]);
    match NextMode(g.mode, g.delim, t[0])
    case None => CompletesBlocked(g, t, es);
    case Some((mode, delim)) =>
      if |g.cur| >= ROOM || (!g.mode.Insecond? && |g.cur| + 1 >= ROOM) {
        CompletesTooLong(g, t, es);
      } else {
        var next := Config(mode, delim, g.cur + [t[0]], g.elems);
        NextSound(g, t[0], next);
        ScanIff(t[1..], next, es);
        if es == [] {
          NothingCompletes(g, t);
          NothingCompletes(next, t[1..]);
        } else if es[0] == g.cur {
          CompletesStops(g, t, es);
          TooShort(next, t[1..], es);
        } else {
          CompletesGoesOn(g, next, t, es);
        }
      }
  }

  lemma TooShort(next: Config, t: Text, es: seq<Text>)
    requires es != [] && |es[0]| < |next.cur|
    ensures !Completes(next, t, es)
  {
  }

  lemma NextSound(g: Config, c: byte, next: Config)
    requires Sound(g) && c != NUL && NextMode(g.mode, g.delim, c) == Some((next.mode, next.delim))
    requires next.cur == g.cur + [c]
    requires |g.cur| < ROOM && (!g.mode.Insecond? ==> |g.cur| + 1 < ROOM)
    ensures Sound(next) && next.mode != Between
  {
  }

  /**
   * From any state on: the line is accepted with exactly the elements `es` if and only if what is left of it
   * is a completion of the element begun and the rest of `es`, blanks between them.
   */
  lemma {:induction false} ScanIff(t: Text, g: Config, es: seq<Text>)
    requires Sound(g) && NulFree(t) && LF !in t
    ensures Scan(t, g) == Accepted(g.elems + es) <==> Accepts(g, t, es)
    decreases |t|, 1
  {
    hide Rest, Finishes, Completes, Take, AtEnd;
    if t == [] {
      EndIff(g, es);
    } else {
      TailOf(t);
      if g.mode != Between {
        if Finishes(g.mode, g.delim, t[0]) { FinishIff(t, g, es); } else { PutIff(t, g, es); }
      } else {
        TakeIs(g, t[0]);
        NotFinished(g, t[0]);
        if IsBlank(t[0]) {
          ScanIff(t[1..], g, es);
        } else if IsSep(t[0]) {
          JoinedBlocked(t, es);
        } else {
          var next := Config(Infirst, g.delim, [t[0]], g.elems);
          assert [] + [t[0]] == [t[0]];
          ScanIff(t[1..], next, es);
          JoinedGoesOn(next, t, es);
        }
      }
    }
  }

  lemma NotFinished(g: Config, c: byte)
    requires g.mode.Between?
    ensures !Finishes(g.mode, g.delim, c)
  {
  }

  lemma StripIs(t: Text)
    ensures LF !in Strip(t) && (NulFree(t) ==> NulFree(Strip(t)))
  {
    if t != [] { StripIs(t[1..]); }
  }

  /**
   * parseLine answers LR_OK with the elements `es` exactly when the line, line breaks apart, is those elements
   * with blanks in between, perhaps in front, and none behind; each a plain word, or a key, a separator and a
   * bare or quoted value, of at most 999 characters.
   */
  lemma AcceptedIffJoined(line: Text, es: seq<Text>)
    requires NulFree(line)
    ensures Scan(line, START) == Accepted(es) <==> Joined(Strip(line), es)
  {
    hide Scan, Joined;
    StripIs(line);
    ScanStrip(line, START);
    ScanIff(Strip(line), START, es);
    assert START.elems + es == es;
  }

  /** The elements with the given runs of blanks in front of each. */
  function Line(gaps: seq<Text>, es: seq<Text>): Text
    requires |gaps| == |es|
  {
    if es == [] then [] else gaps[0] + es[0] + Line(gaps[1..], es[1..])
  }

  predicate AllBlank(t: Text) { forall k :: 0 <= k < |t| ==> BlankChar(t[k]) }

  lemma {:induction false} JoinedBehindBlanks(gap: Text, t: Text, es: seq<Text>)
    requires AllBlank(gap) && Joined(t, es)
    ensures Joined(gap + t, es)
    decreases |gap|
  {
    if gap == [] {
      assert gap + t == t;
    } else {
      JoinedBehindBlanks(gap[1..], t, es);
      assert (gap + t)[1..] == gap[1..] + t;
    }
  }

  lemma {:induction false} LineJoined(gaps: seq<Text>, es: seq<Text>)
    requires |gaps| == |es| > 0 && (forall i :: 0 <= i < |es| ==> Element(es[i]) && AllBlank(gaps[i]))
    requires forall i :: 0 < i < |es| ==> gaps[i] != []
    ensures Joined(Line(gaps, es), es)
    decreases |es|
  {
    hide Element, AllBlank;
    var more := Line(gaps[1..], es[1..]);
    var t := es[0] + more;
    ElementStarts(es[0]);
    assert t[|es[0]|..] == more;
    if |es| == 1 {
      assert es[1..] == [] && more == [];
    } else {
      LineJoined(gaps[1..], es[1..]);
      FirstBlank(gaps[1], es[1] + Line(gaps[1..][1..], es[1..][1..]), more, es[1..]);
    }
    JoinedBehindBlanks(gaps[0], t, es);
    assert gaps[0] + es[0] + more == gaps[0] + t;
  }

  lemma ElementStarts(x: Text)
    ensures Element(x) ==> x != [] && !IsBlank(x[0])
  {
    ElementRest(x);
  }

  lemma FirstBlank(gap: Text, rest: Text, t: Text, es: seq<Text>)
    requires gap != [] && AllBlank(gap) && t == gap + rest && Joined(t, es)
    ensures Follows(t, es)
  {
    assert t[0] == gap[0];
  }

  /** The tokenizer round trip. */
  lemma LineRoundTrip(gaps: seq<Text>, es: seq<Text>)
    requires |gaps| == |es| > 0 && (forall i :: 0 <= i < |es| ==> Element(es[i]) && AllBlank(gaps[i]))
    requires forall i :: 0 < i < |es| ==> gaps[i] != []
    requires NulFree(Line(gaps, es)) && LF !in Line(gaps, es)
    ensures Scan(Line(gaps, es), START) == Accepted(es)
  {
    hide Scan, Element, Joined, AllBlank;
    LineJoined(gaps, es);
    ScanIff(Line(gaps, es), START, es);
    assert START.elems + es == es;
  }

  /** A line shorter than the scratch buffer never gets near its end. */
  lemma {:induction false} ShortLines(t: Text, g: Config)
    requires |t| + |g.cur| < ROOM
    ensures Scan(t, g).Accepted? || Scan(t, g).Syntax?
    decreases |t|
  {
    if t != [] {
      if t[0] == LF {
        ShortLines(t[1..], g);
      } else if Take(g, t[0]).On? {
        ShortLines(t[1..], Take(g, t[0]).g);
      }
    }
  }

  // ----- when the scratch buffer is overrun -----

  predicate EndsOrBlank(t: Text) { t == [] || BlankChar(t[0]) }

  /** What `y` does behind an open quote `q`: closes it with its last character, or leaves it open. */
  predicate FillingQuoted(y: Text, q: byte, more: Text) {
    if q in y then QuotedText(y, q) && EndsOrBlank(more) else more != []
  }

  /** A value from position `at` of the scratch buffer on that fills the buffer, `more` behind it. */
  predicate FillingValue(v: Text, at: nat, more: Text) {
    v != [] && at + 1 < ROOM && IsPlain(v[0]) &&
    if QuoteChar(v[0]) then FillingQuoted(v[1..], v[0], more) else NoBlanks(v[1..])
  }

  /** A key, a separator and such a value. */
  predicate FillingPair(w: Text, k: nat, more: Text) {
    0 < k < |w| && AllPlain(w[..k]) && SepChar(w[k]) && FillingValue(w[k + 1..], k + 1, more)
  }

  /** The text begins with a pair of exactly as many characters as the scratch buffer has. */
  ghost predicate Fills(t: Text) {
    |t| >= ROOM && exists k: nat :: FillingPair(t[..ROOM], k, t[ROOM..])
  }

  /** Blanks and elements, then a pair that fills the scratch buffer. */
  ghost predicate Overruns(t: Text)
    decreases |t|
  {
    t != [] &&
    if BlankChar(t[0]) then Overruns(t[1..]) else Fills(t) || exists m: nat :: ElementThenMore(t, m)
  }

  ghost predicate ElementThenMore(t: Text, m: nat)
    decreases |t|, 0
  {
    m < |t| && Element(t[..m]) && BlankChar(t[m]) && Overruns(t[m + 1..])
  }

  /** How a begun element may come to fill the buffer: `y` is the rest of it, `n` characters are there. */
  ghost predicate FillRest(mode: Mode, delim: byte, n: nat, y: Text, more: Text) {
    match mode
    case Between => false
    case Infirst => exists k: nat :: FillKeyRest(n, y, k, more)
    case Startsecond => FillingValue(y, n, more)
    case Insecond => if delim == NUL then NoBlanks(y) else FillingQuoted(y, delim, more)
    case Endsecond => y == [] && EndsOrBlank(more)
  }

  predicate FillKeyRest(n: nat, y: Text, k: nat, more: Text) {
    k < |y| && AllPlain(y[..k]) && IsSep(y[k]) && FillingValue(y[k + 1..], n + k + 1, more)
  }

  lemma FillStepInfirst(delim: byte, n: nat, y: Text, more: Text)
    requires y != []
    ensures FillRest(Infirst, delim, n, y, more) <==>
            (IsSep(y[0]) && FillingValue(y[1..], n + 1, more))
            || (IsPlain(y[0]) && FillRest(Infirst, delim, n + 1, y[1..], more))
  {
    hide FillingValue;
    var u, n' := y[1..], n + 1;
    if k: nat :| FillKeyRest(n, y, k, more) {
      if k > 0 {
        assert y[..k][0] == y[0] && y[..k][1..] == y[1..][..k - 1];
        assert y[1..][k..] == y[k + 1..];
        assert FillKeyRest(n', u, k - 1, more);
      }
    }
    if IsSep(y[0]) && FillingValue(y[1..], n + 1, more) { assert FillKeyRest(n, y, 0, more); }
    if IsPlain(y[0]) {
      if k: nat :| FillKeyRest(n', u, k, more) {
        assert y[..k + 1] == [y[0]] + y[1..][..k];
        assert y[1..][k + 1..] == y[k + 2..];
        assert FillKeyRest(n, y, k + 1, more);
      }
    }
  }

  lemma FillStepInsecond(delim: byte, y: Text, more: Text)
    requires y != [] && NulFree(y)
    ensures FillRest(Insecond, delim, 0, y, more) <==>
            !(IsBlank(y[0]) && delim == NUL)
            && (if y[0] == delim then y[1..] == [] && EndsOrBlank(more) else FillRest(Insecond, delim, 0, y[1..], more))
  {
    RestInsecond(y, delim);
    if delim != NUL && y[0] == delim {
      if y[1..] == [] { assert |y| == 1; }
    } else {
      assert y == [y[0]] + y[1..];
    }
  }

  /** One character of such a rest. */
  lemma FillStep(mode: Mode, delim: byte, n: nat, y: Text, more: Text)
    requires y != [] && NulFree(y) && mode != Between && (mode.Startsecond? ==> delim == NUL)
    ensures FillRest(mode, delim, n, y, more) <==>
            !Finishes(mode, delim, y[0]) && NextMode(mode, delim, y[0]).Some? && (mode.Startsecond? ==> n + 1 < ROOM)
            && FillRest(NextMode(mode, delim, y[0]).value.0, NextMode(mode, delim, y[0]).value.1, n + 1, y[1..], more)
  {
    match mode
    case Infirst => FillStepInfirst(delim, n, y, more);
    case Insecond => FillStepInsecond(delim, y, more);
    case _ =>
  }

  /** The element begun, or one after it, comes to fill the buffer. */
  ghost predicate Spills(g: Config, t: Text) {
    if g.mode.Between? then Overruns(t) else SpillsNow(g, t) || exists m: nat :: SpillsLater(g, t, m)
  }

  ghost predicate SpillsNow(g: Config, t: Text) {
    |g.cur| <= ROOM <= |g.cur| + |t|
    && FillRest(g.mode, g.delim, |g.cur|, t[..ROOM - |g.cur|], t[ROOM - |g.cur|..])
  }

  ghost predicate SpillsLater(g: Config, t: Text, m: nat) {
    m < |t| && |g.cur| + m < ROOM && Rest(g.mode, g.delim, t[..m]) && IsBlank(t[m]) && Overruns(t[m + 1..])
  }

  lemma SpillEnd(g: Config)
    requires Sound(g)
    ensures AtEnd(g) == Overrun <==> Spills(g, [])
  {
  }

  lemma Prefix(t: Text, m: nat)
    requires 0 < m <= |t| && NulFree(t)
    ensures t[..m] != [] && NulFree(t[..m]) && t[..m][0] == t[0] && t[..m][1..] == t[1..][..m - 1]
  {
  }

  /** No later spill can skip the character that has to be taken now. */
  lemma SpillsLaterStep(g: Config, t: Text, m: nat)
    requires Sound(g) && t != [] && NulFree(t) && g.mode != Between
    ensures SpillsLater(g, t, m) && m == 0 ==> Finishes(g.mode, g.delim, t[0])
    ensures SpillsLater(g, t, m) && m > 0 ==>
              !Finishes(g.mode, g.delim, t[0]) && NextMode(g.mode, g.delim, t[0]).Some? && |g.cur| + 1 < ROOM
  {
    hide Overruns, Finishes, NextMode, Rest;
    RestEmpty(g.mode, g.delim);
    if SpillsLater(g, t, m) {
      if m == 0 {
        assert t[..m] == [];
        BlankFinishes(g, t[0]);
      } else {
        Prefix(t, m);
        RestStep(g.mode, g.delim, t[..m]);
      }
    }
  }

  lemma BlankFinishes(g: Config, c: byte)
    requires IsBlank(c) && (g.mode.Infirst? || g.mode.Endsecond? || (g.mode.Insecond? && g.delim == NUL))
    ensures Finishes(g.mode, g.delim, c)
  {
  }

  lemma SpillsNowStep(g: Config, t: Text)
    requires Sound(g) && t != [] && NulFree(t) && g.mode != Between && |g.cur| < ROOM && SpillsNow(g, t)
    ensures !Finishes(g.mode, g.delim, t[0]) && NextMode(g.mode, g.delim, t[0]).Some?
    ensures g.mode.Startsecond? ==> |g.cur| + 1 < ROOM
  {
    hide Finishes, NextMode, FillRest;
    Prefix(t, ROOM - |g.cur|);
    FillStep(g.mode, g.delim, |g.cur|, t[..ROOM - |g.cur|], t[ROOM - |g.cur|..]);
  }

  lemma SpillsNowFull(g: Config, t: Text)
    requires Sound(g) && t != [] && NulFree(t) && g.mode != Between && |g.cur| == ROOM
    ensures SpillsNow(g, t) <==> g.mode.Insecond? || (g.mode.Endsecond? && IsBlank(t[0]))
  {
    assert t[..0] == [] && t[0..] == t;
  }

  /** In a key the buffer is never full. */
  lemma KeyNeverFills(g: Config, t: Text)
    requires g.mode.Infirst? && |g.cur| + 1 >= ROOM
    ensures !SpillsNow(g, t)
  {
  }

  lemma SpillsGoesOn(g: Config, next: Config, t: Text)
    requires Sound(g) && t != [] && NulFree(t) && g.mode != Between && next.mode != Between && |g.cur| < ROOM
    requires !Finishes(g.mode, g.delim, t[0]) && NextMode(g.mode, g.delim, t[0]) == Some((next.mode, next.delim))
    requires next.cur == g.cur + [t[0]] && (g.mode.Startsecond? ==> |g.cur| + 1 < ROOM)
    ensures Spills(g, t) <==> Spills(next, t[1..])
  {
    hide Finishes, NextMode, FillRest, Rest, Overruns;
    if ROOM <= |g.cur| + |t| {
      var m := ROOM - |g.cur|;
      Prefix(t, m);
      assert t[1..][m - 1..] == t[m..];
      FillStep(g.mode, g.delim, |g.cur|, t[..m], t[m..]);
    }
    assert SpillsNow(g, t) <==> SpillsNow(next, t[1..]);
    if m: nat :| SpillsLater(g, t, m) {
      SpillsLaterStep(g, t, m);
      LaterGoesOn(g, next, t, m);
      assert SpillsLater(next, t[1..], m - 1);
    }
    if m: nat :| SpillsLater(next, t[1..], m) {
      LaterGoesOn(g, next, t, m + 1);
      assert SpillsLater(g, t, m + 1);
    }
  }

  lemma LaterGoesOn(g: Config, next: Config, t: Text, m: nat)
    requires Sound(g) && t != [] && NulFree(t) && g.mode != Between
    requires !Finishes(g.mode, g.delim, t[0]) && NextMode(g.mode, g.delim, t[0]) == Some((next.mode, next.delim))
    requires next.cur == g.cur + [t[0]]
    ensures m > 0 ==> (SpillsLater(g, t, m) <==> SpillsLater(next, t[1..], m - 1))
  {
    hide Finishes, NextMode, Rest, Overruns;
    if 0 < m <= |t| {
      Prefix(t, m);
      RestStep(g.mode, g.delim, t[..m]);
      if m < |t| { assert t[1..][m..] == t[m + 1..] && t[1..][m - 1] == t[m]; }
    }
  }

  lemma PairBehindFirst(w: Text, k: nat, more: Text)
    requires w != [] && IsPlain(w[0])
    ensures FillingPair(w, k, more) <==> k > 0 && FillKeyRest(1, w[1..], k - 1, more)
  {
    hide FillingValue;
    if 0 < k < |w| {
      assert w[1..][k..] == w[k + 1..];
      assert w[..k] == [w[0]] + w[1..][..k - 1];
      var u := w[1..][..k - 1];
      assert forall i :: 0 <= i < |u| ==> u[i] == w[..k][i + 1];
    }
  }

  /** The first character of an element. */
  lemma OverrunsGoesOn(next: Config, t: Text)
    requires t != [] && NulFree(t) && !IsBlank(t[0]) && next.mode == Infirst && next.cur == [t[0]] && IsPlain(t[0])
    ensures Overruns(t) <==> Spills(next, t[1..])
  {
    hide Element, FillingValue;
    var u := t[1..];
    if |t| >= ROOM {
      Prefix(t, ROOM);
      var w := t[..ROOM];
      assert u[ROOM - 1..] == t[ROOM..];
      forall k: nat ensures FillingPair(w, k, t[ROOM..]) <==> k > 0 && FillKeyRest(1, w[1..], k - 1, t[ROOM..]) {
        PairBehindFirst(w, k, t[ROOM..]);
      }
      if k: nat :| FillKeyRest(1, w[1..], k, t[ROOM..]) { assert FillingPair(w, k + 1, t[ROOM..]); }
    }
    assert Fills(t) <==> SpillsNow(next, u);
    forall m: nat ensures ElementThenMore(t, m) <==> m > 0 && SpillsLater(next, u, m - 1) { LaterIsMore(next, t, m); }
    if m: nat :| SpillsLater(next, u, m) { assert ElementThenMore(t, m + 1); }
  }

  lemma LaterIsMore(next: Config, t: Text, m: nat)
    requires t != [] && NulFree(t) && !IsBlank(t[0]) && next.mode == Infirst && next.cur == [t[0]] && IsPlain(t[0])
    ensures ElementThenMore(t, m) <==> m > 0 && SpillsLater(next, t[1..], m - 1)
  {
    hide Element, Overruns, Rest;
    if m == 0 {
      assert t[..0] == [];
      ElementRest([]);
    } else if m < |t| {
      ElementRest(t[..m]);
      Prefix(t, m);
      RestIgnoresDelim(next.delim, t[1..][..m - 1]);
      assert t[1..][m..] == t[m + 1..] && t[1..][m - 1] == t[m];
    }
  }

  lemma SepDoesNotOverrun(t: Text)
    requires t != [] && IsSep(t[0])
    ensures !Overruns(t)
  {
    forall k: nat ensures |t| >= ROOM ==> !FillingPair(t[..ROOM], k, t[ROOM..]) {
      if |t| >= ROOM && 0 < k < ROOM { assert t[..ROOM][..k][0] == t[0]; }
    }
    forall m: nat ensures !ElementThenMore(t, m) { if m < |t| { ElementRest(t[..m]); } }
  }

  /** A blank ends the element begun. */
  lemma {:induction false} SpillFinish(t: Text, g: Config)
    requires Sound(g) && t != [] && NulFree(t) && LF !in t && g.mode != Between && Finishes(g.mode, g.delim, t[0])
    ensures Scan(t, g) == Overrun <==> Spills(g, t)
    decreases |t|, 0
  {
    hide Overruns, Rest, FillRest, Finishes, NextMode, Take, AtEnd;
    TailOf(t);
    TakeIs(g, t[0]);
    if |g.cur| >= ROOM {
      SpillsNowFull(g, t);
      FinishingModes(g, t[0]);
    } else {
      SpillIff(t[1..], Config(Between, g.delim, [], g.elems + [g.cur]));
      if SpillsNow(g, t) { SpillsNowStep(g, t); }
      forall m: nat ensures SpillsLater(g, t, m) ==> m == 0 { SpillsLaterStep(g, t, m); }
      if Overruns(t[1..]) {
        FinishingModes(g, t[0]);
        RestEmpty(g.mode, g.delim);
        assert t[..0] == [];
        assert SpillsLater(g, t, 0);
      }
    }
  }

  lemma FinishingModes(g: Config, c: byte)
    requires Finishes(g.mode, g.delim, c)
    ensures IsBlank(c) && (g.mode.Infirst? || g.mode.Endsecond? || (g.mode.Insecond? && g.delim == NUL))
  {
  }

  /** Nothing can take the character. */
  lemma SpillBlocked(t: Text, g: Config)
    requires Sound(g) && t != [] && NulFree(t) && g.mode != Between
    requires !Finishes(g.mode, g.delim, t[0]) && NextMode(g.mode, g.delim, t[0]).None?
    ensures !Spills(g, t)
  {
    hide Overruns, Rest, FillRest;
    if |g.cur| >= ROOM { SpillsNowFull(g, t); } else if SpillsNow(g, t) { SpillsNowStep(g, t); }
    forall m: nat ensures !SpillsLater(g, t, m) { SpillsLaterStep(g, t, m); }
  }

  /** A character goes into the element, or is refused. */
  lemma {:induction false} SpillPut(t: Text, g: Config)
    requires Sound(g) && t != [] && NulFree(t) && LF !in t && g.mode != Between && !Finishes(g.mode, g.delim, t[0])
    ensures Scan(t, g) == Overrun <==> Spills(g, t)
    decreases |t|, 0
  {
    hide Overruns, Rest, FillRest, Finishes, NextMode, Take, AtEnd;
    TailOf(t);
    TakeIs(g, t[0]);
    match NextMode(g.mode, g.delim, t[0])
    case None => SpillBlocked(t, g);
    case Some((mode, delim)) =>
      forall m: nat ensures SpillsLater(g, t, m) ==> |g.cur| + 1 < ROOM { SpillsLaterStep(g, t, m); }
      if |g.cur| >= ROOM {
        SpillsNowFull(g, t);
        EndTakesNothing(g, t[0]);
      } else if !g.mode.Insecond? && |g.cur| + 1 >= ROOM {
        EndTakesNothing(g, t[0]);
        if g.mode.Infirst? { KeyNeverFills(g, t); } else if SpillsNow(g, t) { SpillsNowStep(g, t); }
      } else {
        var next := Config(mode, delim, g.cur + [t[0]], g.elems);
        NextSound(g, t[0], next);
        SpillIff(t[1..], next);
        SpillsGoesOn(g, next, t);
      }
  }

  lemma EndTakesNothing(g: Config, c: byte)
    requires NextMode(g.mode, g.delim, c).Some?
    ensures !g.mode.Endsecond?
  {
  }

  /** From any state on: exactly when a pair comes to fill the scratch buffer. */
  lemma {:induction false} SpillIff(t: Text, g: Config)
    requires Sound(g) && NulFree(t) && LF !in t
    ensures Scan(t, g) == Overrun <==> Spills(g, t)
    decreases |t|, 1
  {
    hide Rest, Finishes, Take, AtEnd, Fills, ElementThenMore, SpillsNow, SpillsLater;
    if t == [] {
      SpillEnd(g);
    } else {
      TailOf(t);
      if g.mode != Between {
        if Finishes(g.mode, g.delim, t[0]) { SpillFinish(t, g); } else { SpillPut(t, g); }
      } else {
        TakeIs(g, t[0]);
        NotFinished(g, t[0]);
        if IsBlank(t[0]) {
          SpillIff(t[1..], g);
        } else if IsSep(t[0]) {
          SepDoesNotOverrun(t);
        } else {
          var next := Config(Infirst, g.delim, [t[0]], g.elems);
          assert [] + [t[0]] == [t[0]];
          SpillIff(t[1..], next);
          OverrunsGoesOn(next, t);
        }
      }
    }
  }

  /**
   * parseLine writes behind its scratch buffer exactly when, behind blanks and complete elements, the line has
   * a key, a separator and a value of together 1000 characters, the value beginning no later than at the 999th
   * of them, such that the value is bare; or the 1000th character closes its quote and the line ends there or
   * goes on with a blank; or its quote is still open and the line goes on.
   */
  lemma OverrunIff(line: Text)
    requires NulFree(line)
    ensures Scan(line, START) == Overrun <==> Overruns(Strip(line))
  {
    hide Scan, Overruns;
    StripIs(line);
    ScanStrip(line, START);
    SpillIff(Strip(line), START);
  }

  lemma {:induction false} StripSame(t: Text)
    requires LF !in t
    ensures Strip(t) == t
  {
    if t != [] { StripSame(t[1..]); }
  }

  /** The shortest such line, of 1000 characters: a=aaa... */
  lemma OverrunningLine()
    ensures Scan([97, EQUALS] + seq(ROOM - 2, _ => 97), START) == Overrun
  {
    hide Scan, Overruns, Fills;
    var line := [97, EQUALS] + seq(ROOM - 2, _ => 97);
    LineFills(line);
    assert LF !in line && NulFree(line);
    StripSame(line);
    OverrunIff(line);
    OverrunsAtOnce(line);
  }

  lemma LineFills(line: Text)
    requires line == [97, EQUALS] + seq(ROOM - 2, _ => 97)
    ensures Fills(line)
  {
    assert line[..ROOM] == line && line[ROOM..] == [];
    assert line[..1] == [97];
    assert line[2..] == seq(ROOM - 2, _ => 97);
    assert FillingPair(line[..ROOM], 1, line[ROOM..]);
  }

  lemma OverrunsAtOnce(t: Text)
    requires t != [] && Fills(t) && !IsBlank(t[0])
    ensures Overruns(t)
  {
  }
}
