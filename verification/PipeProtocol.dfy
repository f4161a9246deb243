/** The pipe between the mini plugin manager and a plugin: framing, and the child's read-dispatch loop. */
module PipeProtocol {
  import opened Bytes

  // MPMMessageType
  const NOMSG: nat := 0
  const SCAN: nat := 1
  const ADD: nat := 2
  const DELETE: nat := 3
  const REMOVE: nat := 4
  const RECONNECT: nat := 5
  const STOP: nat := 6
  const DONE: nat := 7
  const ERROR: nat := 8

  const SIZE_BYTES: nat := 8      // sizeof(size_t)
  const TYPE_BYTES: nat := 4      // sizeof(MPMMessageType)

  // ----- numbers as the machine stores them -----

  /** The number can be stored in `width` bytes. */
  predicate Holds(n: nat, width: nat) {
    if width == 0 then n == 0 else Holds(n / 256, width - 1)
  }

  function Stored(n: nat, width: nat): (t: Text)
    ensures |t| == width
  {
    if width == 0 then [] else [n % 256] + Stored(n / 256, width - 1)
  }

  function Loaded(t: Text): nat {
    if t == [] then 0 else t[0] + 256 * Loaded(t[1..])
  }

  lemma {:induction false} LoadStored(n: nat, width: nat)
    requires Holds(n, width)
    ensures Loaded(Stored(n, width)) == n
  {
    if width > 0 {
      LoadStored(n / 256, width - 1);
      assert Stored(n, width)[1..] == Stored(n / 256, width - 1);
    }
  }

  // ----- messages -----

  /** A message as it is sent: any type number, any payload whose size a size_t can hold. */
  datatype Message = Message(kind: nat, payload: Text) {
    predicate Valid() { Holds(kind, TYPE_BYTES) && Holds(|payload|, SIZE_BYTES) }
  }

  function Framed(m: Message): Text {
    Stored(|m.payload|, SIZE_BYTES) + Stored(m.kind, TYPE_BYTES) + m.payload
  }

  function AllFramed(ms: seq<Message>): Text {
    if ms == [] then [] else Framed(ms[0]) + AllFramed(ms[1..])
  }

  ghost predicate AllValid(ms: seq<Message>) {
    forall i :: 0 <= i < |ms| ==> ms[i].Valid()
  }

  /** MPMPipeMessage in memory: two fields as bytes, and the payload, NULL when there is none. */
  datatype Received = Received(size: Text, kind: Text, payload: Option<Text>) {
    function Kind(): nat { Loaded(kind) }
    function Size(): nat { Loaded(size) }
    function Content(): Text { if payload.Some? then payload.value else [] }
  }

  /** As processMessagesFromMPM sets it up before each read. */
  const BLANK := Received(Stored(0, SIZE_BYTES), Stored(NOMSG, TYPE_BYTES), None)

  // ----- the pipe -----

  /** A pipe whose writing end writes and reads whole fields; at the end of file a read gives what is left. */
  class Pipe {
    var content: Text

    constructor ()
      ensures content == []
    {
      content := [];
    }

    method Write(t: Text)
      modifies this
      ensures content == old(content) + t
    {
      content := content + t;
    }

    /** read: the bytes go over the front of `field`; their number is returned. */
    method Read(field: Text) returns (now: Text, ret: nat)
      modifies this
      ensures ret == Least(|field|, |old(content)|) && content == old(content)[ret..]
      ensures now == old(content)[..ret] + field[ret..]
    {
      ret := Least(|field|, |content|);
      now := content[..ret] + field[ret..];
      content := content[ret..];
    }
  }

  function Least(a: nat, b: nat): (r: nat)
    ensures r <= a && r <= b
  {
    if a < b then a else b
  }

  /** MPMWritePipeMessage. */
  method WriteMessage(fd: Pipe, m: Message)
    modifies fd
    ensures fd.content == old(fd.content) + Framed(m)
  {
    fd.Write(Stored(|m.payload|, SIZE_BYTES));
    fd.Write(Stored(m.kind, TYPE_BYTES));
    if |m.payload| > 0 { fd.Write(m.payload); }
    Associated(old(fd.content), Stored(|m.payload|, SIZE_BYTES), Stored(m.kind, TYPE_BYTES), m.payload);
  }

  lemma Associated(a: Text, b: Text, c: Text, d: Text)
    ensures a + b + c + d == a + (b + c + d) && (d == [] ==> a + b + c == a + (b + c + d))
  {
  }

  /** All messages, back to back. */
  method WriteAll(fd: Pipe, ms: seq<Message>)
    modifies fd
    ensures fd.content == old(fd.content) + AllFramed(ms)
  {
    hide Framed;
    ghost var before := fd.content;
    assert ms[0..] == ms;
    for i := 0 to |ms|
      invariant fd.content + AllFramed(ms[i..]) == before + AllFramed(ms)
    {
      ghost var sent := fd.content;
      WriteMessage(fd, ms[i]);
      assert ms[i..][1..] == ms[i + 1..];
      assert sent + Framed(ms[i]) + AllFramed(ms[i + 1..]) == sent + AllFramed(ms[i..]);
    }
    assert fd.content + [] == fd.content;
  }

  function Zeros(n: nat): Text { seq(n, _ => 0) }

  /** What one MPMReadPipeMessage finds at the front of a stream: the message, the bytes counted, what is left. */
  function Reads(into: Received, stream: Text): (Received, nat, Text) {
    var (size, n1, s1) := Over(into.size, stream);
    var (kind, n2, s2) := Over(into.kind, s1);
    if Loaded(kind) == NOMSG then (Received(size, kind, into.payload), 0, s2)
    else if Loaded(size) > 0 then
      var (payload, n3, s3) := Over(Zeros(Loaded(size)), s2);
      (Received(size, kind, Some(payload)), n1 + n2 + n3, s3)
    else (Received(size, kind, None), n1 + n2, s2)
  }

  /** One read over a field: what is in it then, how many bytes came, and what is left of the stream. */
  function Over(field: Text, stream: Text): (r: (Text, nat, Text))
    ensures |r.0| == |field| && r.1 <= |stream| && r.2 == stream[r.1..]
  {
    var n := Least(|field|, |stream|);
    (stream[..n] + field[n..], n, stream[n..])
  }

  /** MPMReadPipeMessage. */
  method ReadMessage(fd: Pipe, into: Received) returns (m: Received, bytesRead: nat)
    modifies fd
    ensures (m, bytesRead, fd.content) == Reads(into, old(fd.content))
  {
    var size, kind, ret;
    size, ret := fd.Read(into.size);
    bytesRead := ret;
    kind, ret := fd.Read(into.kind);
    bytesRead := bytesRead + ret;
    m := Received(size, kind, into.payload);
    if m.Kind() == NOMSG {
      bytesRead := 0;
    } else if m.Size() > 0 {
      var payload;
      payload, ret := fd.Read(Zeros(m.Size()));
      m := m.(payload := Some(payload));
      bytesRead := bytesRead + ret;
    } else {
      m := m.(payload := None);
    }
  }

  lemma Cut(a: Text, b: Text)
    ensures (a + b)[..|a|] == a && (a + b)[|a|..] == b
  {
  }

  /** A message at the front of the stream is read exactly; one of type MPM_NOMSG counts as nothing read. */
  lemma ReadsFramed(m: Message, rest: Text)
    requires m.Valid()
    ensures var r := Reads(BLANK, Framed(m) + rest);
            && r.0.Kind() == m.kind
            && (m.kind == NOMSG ==> r.1 == 0)
            && (m.kind != NOMSG ==> r.1 > 0 && r.0.Size() == |m.payload| && r.0.Content() == m.payload && r.2 == rest
                                    && (r.0.payload.None? <==> m.payload == []))
  {
    var size, kind := Stored(|m.payload|, SIZE_BYTES), Stored(m.kind, TYPE_BYTES);
    assert Framed(m) + rest == size + (kind + (m.payload + rest));
    Cut(size, kind + (m.payload + rest));
    Cut(kind, m.payload + rest);
    Cut(m.payload, rest);
    LoadStored(|m.payload|, SIZE_BYTES);
    LoadStored(m.kind, TYPE_BYTES);
    hide Stored, Loaded, Holds;
    assert size + BLANK.size[SIZE_BYTES..] == size && kind + BLANK.kind[TYPE_BYTES..] == kind;
    assert m.payload + Zeros(|m.payload|)[|m.payload|..] == m.payload;
  }

  /** At the end of the file nothing is read, and the type stays MPM_NOMSG. */
  lemma ReadsNothing()
    ensures Reads(BLANK, []).1 == 0
  {
    assert BLANK.kind == [] + BLANK.kind[0..];
    LoadStored(NOMSG, TYPE_BYTES);
  }

  // ----- the child -----

  /** One call of a plugin function, with the payload of the message it is made for. */
  datatype Call = PluginScan(payload: Text) | PluginAdd(payload: Text) | PluginRemove(payload: Text)
                | PluginReconnect(payload: Text)

  /** The call for a message of type `kind`, if there is one. */
  function CallFor(kind: nat, payload: Text): seq<Call> {
    if kind == SCAN then [PluginScan(payload)]
    else if kind == ADD then [PluginAdd(payload)]
    else if kind == REMOVE then [PluginRemove(payload)]
    else if kind == RECONNECT then [PluginReconnect(payload)]
    else []
  }

  /** What the loop calls for the messages in a stream, and what it leaves unread. */
  function Served(stream: Text): (seq<Call>, Text)
    decreases |stream|
  {
    var (m, bytesRead, rest) := Reads(BLANK, stream);
    if bytesRead == 0 || m.Kind() == STOP then ([], rest)
    else
      ReadsShrinks(stream);
      var more := Served(rest);
      (CallFor(m.Kind(), m.Content()) + more.0, more.1)
  }

  /** One turn of the loop. */
  lemma ServedTurn(stream: Text)
    ensures var (m, bytesRead, rest) := Reads(BLANK, stream);
            if bytesRead == 0 || m.Kind() == STOP then Served(stream) == ([], rest)
            else Served(stream) == (CallFor(m.Kind(), m.Content()) + Served(rest).0, Served(rest).1)
  {
    hide Reads, CallFor;
  }

  lemma ReadsShrinks(stream: Text)
    ensures Reads(BLANK, stream).1 > 0 ==> |Reads(BLANK, stream).2| < |stream|
  {
    hide Loaded, Stored;
  }

  /** The plugin process: the calls made so far. */
  class Child {
    var calls: seq<Call>

    constructor ()
      ensures calls == []
    {
      calls := [];
    }

    /** MPMRequestHandler. */
    method RequestHandler(m: Received)
      modifies this
      ensures calls == old(calls) + CallFor(m.Kind(), m.Content())
    {
      match m.Kind() {
        case 1 => calls := calls + [PluginScan(m.Content())];
        case 2 => calls := calls + [PluginAdd(m.Content())];
        case 4 => calls := calls + [PluginRemove(m.Content())];
        case 5 => calls := calls + [PluginReconnect(m.Content())];
        case _ =>
      }
    }

    /** processMessagesFromMPM, when the descriptor is ready. */
    method ProcessMessage(fd: Pipe) returns (shutdown: bool)
      modifies this, fd
      ensures var (m, bytesRead, rest) := Reads(BLANK, old(fd.content));
              && fd.content == rest && shutdown == (bytesRead == 0 || m.Kind() == STOP)
              && calls == old(calls) + if shutdown then [] else CallFor(m.Kind(), m.Content())
    {
      hide Reads;
      shutdown := false;
      var m, nbytes := ReadMessage(fd, BLANK);
      if nbytes == 0 { shutdown := true; }
      if nbytes > 0 {
        if m.Kind() == STOP {
          shutdown := true;
        } else {
          RequestHandler(m);
        }
      }
    }

    /** processMessageFromPipeThreadProc: until a message says so, or the file ends. */
    method Serve(fd: Pipe)
      modifies this, fd
      ensures (calls, fd.content) == (old(calls) + Served(old(fd.content)).0, Served(old(fd.content)).1)
    {
      hide Reads, Served, CallFor;
      ghost var stream := fd.content;
      var result := false;
      while !result
        invariant !result ==> calls + Served(fd.content).0 == old(calls) + Served(stream).0
        invariant !result ==> Served(fd.content).1 == Served(stream).1
        invariant result ==> calls == old(calls) + Served(stream).0 && fd.content == Served(stream).1
        decreases !result, |fd.content|
      {
        ReadsShrinks(fd.content);
        ServedTurn(fd.content);
        ghost var before, left := calls, Served(fd.content).0;
        result := ProcessMessage(fd);
        if result {
          assert before + [] == before;
        } else {
          assert calls + Served(fd.content).0 == before + left;
        }
      }
    }
  }

  // ----- what the loop makes of messages -----

  /** The message ends the loop: MPM_STOP, and MPM_NOMSG, which is taken for the end of the file. */
  predicate Ending(m: Message) { m.kind == STOP || m.kind == NOMSG }

  function BeforeEnd(ms: seq<Message>): seq<Message> {
    if ms == [] || Ending(ms[0]) then [] else [ms[0]] + BeforeEnd(ms[1..])
  }

  function CallsFor(ms: seq<Message>): seq<Call> {
    if ms == [] then []
    else CallFor(ms[0].kind, ms[0].payload) + CallsFor(ms[1..])
  }

  /**
   * Messages written back to back: the child makes exactly the calls for those before the first that ends the
   * loop, in order and once each, and nothing behind that message is looked at.
   */
  lemma {:induction false} ServedFramed(ms: seq<Message>)
    requires AllValid(ms)
    ensures Served(AllFramed(ms)).0 == CallsFor(BeforeEnd(ms))
    ensures var k := |BeforeEnd(ms)|;
            k < |ms| && ms[k].kind == STOP ==> Served(AllFramed(ms)).1 == AllFramed(ms[k + 1..])
  {
    hide Reads, Framed;
    if ms == [] {
      ReadsNothing();
    } else {
      ReadsFramed(ms[0], AllFramed(ms[1..]));
      if !Ending(ms[0]) {
        ServedFramed(ms[1..]);
        assert BeforeEnd(ms)[1..] == BeforeEnd(ms[1..]);
        var k := |BeforeEnd(ms[1..])|;
        if k < |ms[1..]| { assert ms[1..][k + 1..] == ms[k + 2..]; }
      }
    }
  }

  /** Without MPM_NOMSG, only a stop or the end of the file ends the loop. */
  lemma {:induction false} OnlyStopEnds(ms: seq<Message>)
    requires forall i :: 0 <= i < |ms| ==> ms[i].kind != NOMSG
    ensures var k := |BeforeEnd(ms)|;
            k <= |ms| && BeforeEnd(ms) == ms[..k] && (k < |ms| ==> ms[k].kind == STOP)
            && forall i :: 0 <= i < k ==> ms[i].kind != STOP
  {
    if ms != [] && !Ending(ms[0]) {
      OnlyStopEnds(ms[1..]);
      var k := |BeforeEnd(ms[1..])|;
      assert ms[..k + 1] == [ms[0]] + ms[1..][..k];
      forall i | 0 <= i < k + 1 ensures ms[i].kind != STOP {
        if i > 0 { assert ms[i] == ms[1..][i - 1]; }
      }
    }
  }

  // ----- which messages the plugin hears of, by the numbers of the protocol -----

  /** How many of the messages are of type 1, 2, 4 or 5. */
  function Heard(ms: seq<Message>): nat {
    if ms == [] then 0
    else (if ms[0].kind in {1, 2, 4, 5} then 1 else 0) + Heard(ms[1..])
  }

  /** The call is the one for the message. */
  predicate Answers(x: Call, m: Message) {
    match m.kind
    case 1 => x == PluginScan(m.payload)
    case 2 => x == PluginAdd(m.payload)
    case 4 => x == PluginRemove(m.payload)
    case 5 => x == PluginReconnect(m.payload)
    case _ => false
  }

  lemma HeardSplit(ms: seq<Message>, i: nat)
    requires 0 < i <= |ms|
    ensures Heard(ms[..i]) == (if ms[0].kind in {1, 2, 4, 5} then 1 else 0) + Heard(ms[1..][..i - 1])
  {
    assert ms[..i][1..] == ms[1..][..i - 1];
  }

  lemma {:induction false} CallsAreHeard(ms: seq<Message>)
    ensures |CallsFor(ms)| == Heard(ms)
    ensures forall i :: 0 <= i < |ms| && ms[i].kind in {1, 2, 4, 5} ==>
              Heard(ms[..i]) < |CallsFor(ms)| && Answers(CallsFor(ms)[Heard(ms[..i])], ms[i])
  {
    if ms != [] {
      CallsAreHeard(ms[1..]);
      forall i | 0 <= i < |ms| && ms[i].kind in {1, 2, 4, 5}
        ensures Heard(ms[..i]) < |CallsFor(ms)| && Answers(CallsFor(ms)[Heard(ms[..i])], ms[i])
      {
        if i > 0 {
          HeardSplit(ms, i);
          assert ms[i] == ms[1..][i - 1];
        }
      }
    }
  }

  /**
   * With the first message of type 0 or 6 at `k`, or none at all: of the messages in front of it, those of type 1, 2,
   * 4 and 5 each make one call, of the plugin's scan, add, remove and reconnect; the call for a message stands behind
   * as many calls as there are such messages in front of it, and there are no other calls.
   */
  lemma ServedCalls(ms: seq<Message>, k: nat)
    requires AllValid(ms) && k <= |ms| && forall i :: 0 <= i < k ==> ms[i].kind != 0 && ms[i].kind != 6
    requires k < |ms| ==> ms[k].kind == 0 || ms[k].kind == 6
    ensures |Served(AllFramed(ms)).0| == Heard(ms[..k])
    ensures forall i :: 0 <= i < k && ms[i].kind in {1, 2, 4, 5} ==>
              Heard(ms[..i]) < |Served(AllFramed(ms)).0| && Answers(Served(AllFramed(ms)).0[Heard(ms[..i])], ms[i])
    ensures k < |ms| && ms[k].kind == 6 ==> Served(AllFramed(ms)).1 == AllFramed(ms[k + 1..])
  {
    hide Served, AllFramed, Answers, CallsFor, Heard, BeforeEnd;
    ServedFramed(ms);
    EndsAtFirst(ms, k);
    CallsAreHeard(ms[..k]);
    forall i | 0 <= i < k ensures ms[..k][..i] == ms[..i] && ms[..k][i] == ms[i] { FirstOf(ms, k, i); }
  }

  lemma FirstOf(ms: seq<Message>, k: nat, i: nat)
    requires i < k <= |ms|
    ensures ms[..k][..i] == ms[..i] && ms[..k][i] == ms[i]
  {
  }

  lemma {:induction false} EndsAtFirst(ms: seq<Message>, k: nat)
    requires k <= |ms| && forall i :: 0 <= i < k ==> ms[i].kind != 0 && ms[i].kind != 6
    requires k < |ms| ==> ms[k].kind == 0 || ms[k].kind == 6
    ensures BeforeEnd(ms) == ms[..k]
  {
    if k > 0 {
      EndsAtFirst(ms[1..], k - 1);
      assert ms[..k] == [ms[0]] + ms[1..][..k - 1];
    }
  }

  /** Both ends of the pipe together. */
  method Converse(ms: seq<Message>) returns (calls: seq<Call>)
    requires AllValid(ms)
    ensures calls == CallsFor(BeforeEnd(ms))
  {
    var pipe := new Pipe();
    WriteAll(pipe, ms);
    var child := new Child();
    child.Serve(pipe);
    ServedFramed(ms);
    assert [] + AllFramed(ms) == AllFramed(ms);
    calls := child.calls;
  }
}
