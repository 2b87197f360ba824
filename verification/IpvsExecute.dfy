/** The reply collector of internal/ipvs/netlink_linux.go: execute filters a stream of messages, which
    arrives in batches, by sequence number. Multi-part messages, DONE and ERROR follow
    sections 2.2 and 2.3.2 of RFC 3549. */
module IpvsExecute {
  import opened NetAddr
  import opened IpvsCodec

  const NLMSG_ERROR := 2
  const NLMSG_DONE := 3
  const SEQ_LIMIT: nat := 0x1_0000_0000

  datatype Msg = Msg(number: nat, pid: int, kind: int, multi: bool, data: Bytes)

  datatype Request = Request(number: nat, pid: int, resType: int)

  /** Errno carries the four bytes of a non-zero error word; Blocked means that the stream ended
      without a terminator and Receive would go on waiting. */
  datatype Outcome = Data(res: seq<Bytes>) | Errno(word: Bytes) | WrongPid | Blocked(pending: seq<Bytes>)

  /** Error messages start with a four-byte word. */
  ghost predicate WellFormed(m: Msg) {
    m.kind == NLMSG_ERROR ==> |m.data| >= 4
  }

  // ---------- the reference: one pass over the messages that are ours ----------

  predicate Ours(req: Request, m: Msg) {
    m.number == req.number
  }

  function Mine(req: Request, msgs: seq<Msg>): seq<Msg> {
    if msgs == [] then []
    else if Ours(req, msgs[0]) then [msgs[0]] + Mine(req, msgs[1..])
    else Mine(req, msgs[1..])
  }

  /** One of our messages that lets the collector go on: a part of a multi-part answer, or a message
      of a type that was not asked for. */
  predicate Continues(req: Request, m: Msg) {
    m.pid == req.pid && m.kind != NLMSG_DONE && m.kind != NLMSG_ERROR
    && ((req.resType != 0 && m.kind != req.resType) || m.multi)
  }

  predicate Wanted(req: Request, m: Msg) {
    req.resType == 0 || m.kind == req.resType
  }

  /** The data of the wanted messages, in order. */
  function Payload(req: Request, msgs: seq<Msg>): seq<Bytes> {
    if msgs == [] then []
    else
      var n := |msgs| - 1;
      Payload(req, msgs[..n]) + (if Wanted(req, msgs[n]) then [msgs[n].data] else [])
  }

  /** How the request ends at its terminator, with what was collected before it. */
  function Ending(req: Request, before: seq<Bytes>, t: Msg): Outcome {
    if t.pid != req.pid then WrongPid
    else if t.kind == NLMSG_DONE then Data(before)
    else if t.kind == NLMSG_ERROR then
      if |t.data| < 4 || IsZeros(t.data[..4]) then Data(before) else Errno(t.data[..4])
    else Data(before + [t.data])
  }

  /** Position of the first terminator, or the length when there is none. */
  function FirstStop(req: Request, msgs: seq<Msg>): (n: nat)
    ensures n <= |msgs|
    ensures forall i :: 0 <= i < n ==> Continues(req, msgs[i])
    ensures n < |msgs| ==> !Continues(req, msgs[n])
  {
    if msgs == [] || !Continues(req, msgs[0]) then 0 else 1 + FirstStop(req, msgs[1..])
  }

  /** What a request answers: the payload of its own messages up to their first terminator. */
  function Answer(req: Request, msgs: seq<Msg>): Outcome {
    var own := Mine(req, msgs);
    var n := FirstStop(req, own);
    if n == |own| then Blocked(Payload(req, own)) else Ending(req, Payload(req, own[..n]), own[n])
  }

  function Flatten(batches: seq<seq<Msg>>): seq<Msg> {
    if batches == [] then [] else batches[0] + Flatten(batches[1..])
  }

  // ---------- the loop, as a fold ----------

  /** Folding messages into the collected data: either still collecting or ended. */
  datatype Progress = Collecting(res: seq<Bytes>) | Ended(outcome: Outcome)

  function Feed(req: Request, p: Progress, m: Msg): Progress {
    if p.Ended? || !Ours(req, m) then p
    else if !Continues(req, m) then Ended(Ending(req, p.res, m))
    else if Wanted(req, m) then Collecting(p.res + [m.data])
    else p
  }

  function FeedAll(req: Request, p: Progress, msgs: seq<Msg>): Progress {
    if msgs == [] then p else Feed(req, FeedAll(req, p, msgs[..|msgs| - 1]), msgs[|msgs| - 1])
  }

  function Close(p: Progress): Outcome {
    match p
    case Collecting(res) => Blocked(res)
    case Ended(outcome) => outcome
  }

  lemma {:induction false} FeedAllConcat(req: Request, p: Progress, a: seq<Msg>, b: seq<Msg>)
    ensures FeedAll(req, p, a + b) == FeedAll(req, FeedAll(req, p, a), b)
  {
    if b == [] {
      assert a + b == a;
    } else {
      var n := |b| - 1;
      FeedAllConcat(req, p, a, b[..n]);
      assert (a + b)[..|a + b| - 1] == a + b[..n];
    }
  }

  lemma {:induction false} EndedStays(req: Request, p: Progress, msgs: seq<Msg>)
    requires p.Ended?
    ensures FeedAll(req, p, msgs) == p
  {
    if msgs != [] {
      EndedStays(req, p, msgs[..|msgs| - 1]);
    }
  }

  lemma {:induction false} MineSnoc(req: Request, msgs: seq<Msg>, m: Msg)
    ensures Mine(req, msgs + [m]) == Mine(req, msgs) + (if Ours(req, m) then [m] else [])
  {
    if msgs == [] {
      assert msgs + [m] == [m];
    } else {
      MineSnoc(req, msgs[1..], m);
      assert (msgs + [m])[1..] == msgs[1..] + [m];
    }
  }

  lemma {:induction false} FirstStopSnoc(req: Request, msgs: seq<Msg>, m: Msg)
    ensures FirstStop(req, msgs + [m]) ==
            if FirstStop(req, msgs) < |msgs| then FirstStop(req, msgs)
            else if Continues(req, m) then |msgs| + 1 else |msgs|
  {
    if msgs == [] {
      assert msgs + [m] == [m] && [m][1..] == [];
    } else {
      FirstStopSnoc(req, msgs[1..], m);
      assert (msgs + [m])[1..] == msgs[1..] + [m];
    }
  }

  /** Where the collector stands after its own messages. */
  function Verdict(req: Request, own: seq<Msg>): Progress {
    var n := FirstStop(req, own);
    if n == |own| then Collecting(Payload(req, own)) else Ended(Ending(req, Payload(req, own[..n]), own[n]))
  }

  lemma VerdictSnoc(req: Request, own: seq<Msg>, m: Msg)
    requires Ours(req, m)
    ensures Verdict(req, own + [m]) == Feed(req, Verdict(req, own), m)
  {
    var n := FirstStop(req, own);
    FirstStopSnoc(req, own, m);
    assert (own + [m])[..|own|] == own;
    assert (own + [m])[..n] == own[..n];
  }

  /** The fold over all messages computes the verdict on the own ones, and so the answer of the reference. */
  lemma {:induction false} FoldIsAnswer(req: Request, msgs: seq<Msg>)
    ensures FeedAll(req, Collecting([]), msgs) == Verdict(req, Mine(req, msgs))
    ensures Close(FeedAll(req, Collecting([]), msgs)) == Answer(req, msgs)
  {
    if msgs != [] {
      var n := |msgs| - 1;
      var m, own := msgs[n], Mine(req, msgs[..n]);
      FoldIsAnswer(req, msgs[..n]);
      assert msgs == msgs[..n] + [m];
      MineSnoc(req, msgs[..n], m);
      if Ours(req, m) {
        VerdictSnoc(req, own, m);
      } else {
        assert own + [] == own;
      }
    }
  }

  // ---------- execute ----------

  /** The inner loop of execute: one received batch. */
  method ReadBatch(req: Request, msgs: seq<Msg>, res: seq<Bytes>) returns (p: Progress)
    requires forall m :: m in msgs ==> WellFormed(m)
    ensures p == FeedAll(req, Collecting(res), msgs)
  {
    var now := res;
    for i := 0 to |msgs|
      invariant FeedAll(req, Collecting(res), msgs[..i]) == Collecting(now)
    {
      var m := msgs[i];
      assert WellFormed(m);
      assert msgs[..i + 1][..i] == msgs[..i];
      if m.number != req.number {
        continue;
      }
      var stop := true;
      if m.pid != req.pid {
        p := Ended(WrongPid);
      } else if m.kind == NLMSG_DONE {
        p := Ended(Data(now));
      } else if m.kind == NLMSG_ERROR {
        p := Ended(if IsZeros(m.data[..4]) then Data(now) else Errno(m.data[..4]));
      } else if req.resType != 0 && m.kind != req.resType {
        stop := false;
      } else {
        p := Ended(Data(now + [m.data]));
        stop := !m.multi;
        now := now + [m.data];
      }
      if stop {
        StopsAt(req, Collecting(res), msgs, i + 1);
        return;
      }
    }
    assert msgs[..|msgs|] == msgs;
    p := Collecting(now);
  }

  lemma StopsAt(req: Request, p: Progress, msgs: seq<Msg>, i: nat)
    requires i <= |msgs| && FeedAll(req, p, msgs[..i]).Ended?
    ensures FeedAll(req, p, msgs) == FeedAll(req, p, msgs[..i])
  {
    assert msgs == msgs[..i] + msgs[i..];
    FeedAllConcat(req, p, msgs[..i], msgs[i..]);
    EndedStays(req, FeedAll(req, p, msgs[..i]), msgs[i..]);
  }

  /** Receives batch after batch until a terminator of the request; the rest of that batch is dropped
      and the later batches stay in the socket. */
  method Execute(req: Request, batches: seq<seq<Msg>>) returns (r: Outcome, rest: seq<seq<Msg>>)
    requires forall b, m :: b in batches && m in b ==> WellFormed(m)
    ensures r == Answer(req, Flatten(batches))
    ensures rest == Remaining(req, batches)
  {
    rest := batches;
    var p: Progress := Collecting([]);
    ghost var seen: seq<Msg> := [];
    while rest != []
      invariant p.Collecting? && FeedAll(req, Collecting([]), seen) == p
      invariant Flatten(batches) == seen + Flatten(rest)
      invariant forall b, m :: b in rest && m in b ==> WellFormed(m)
      invariant RemainingFrom(req, p, rest) == Remaining(req, batches)
      decreases |rest|
    {
      var msgs := rest[0];
      assert msgs in rest;
      FeedAllConcat(req, Collecting([]), seen, msgs);
      p := ReadBatch(req, msgs, p.res);
      seen, rest := seen + msgs, rest[1..];
      assert Flatten(batches) == seen + Flatten(rest);
      if p.Ended? {
        FeedAllConcat(req, Collecting([]), seen, Flatten(rest));
        EndedStays(req, p, Flatten(rest));
        FoldIsAnswer(req, Flatten(batches));
        return p.outcome, rest;
      }
    }
    assert Flatten(batches) == seen;
    FoldIsAnswer(req, seen);
    r := Blocked(p.res);
  }

  /** The batches left in the socket: those after the one with the terminator. */
  function RemainingFrom(req: Request, p: Progress, batches: seq<seq<Msg>>): seq<seq<Msg>>
    decreases |batches|
  {
    if batches == [] then []
    else
      var q := FeedAll(req, p, batches[0]);
      if q.Ended? then batches[1..] else RemainingFrom(req, q, batches[1..])
  }

  function Remaining(req: Request, batches: seq<seq<Msg>>): seq<seq<Msg>> {
    RemainingFrom(req, Collecting([]), batches)
  }

  // ---------- serial runs on one handle ----------

  /** A netlink handle: the last sequence number and the batches waiting in its socket. */
  class Handle {
    var number: nat
    var socket: seq<seq<Msg>>
    const pid: int

    constructor (pid: int)
      ensures number == 0 && socket == [] && this.pid == pid
    {
      number, socket := 0, [];
      this.pid := pid;
    }

    /** Takes the next 32-bit number, sends, and collects; `reply` is what the kernel queues for it. */
    method DoCmdWithResponse(reply: seq<seq<Msg>>) returns (r: Outcome)
      requires forall b, m :: b in socket + reply && m in b ==> WellFormed(m)
      modifies this
      ensures number == NextNumber(old(number))
      ensures r == Answer(Request(number, pid, 0), Flatten(old(socket) + reply))
      ensures socket == Remaining(Request(number, pid, 0), old(socket) + reply)
    {
      number := NextNumber(number);
      r, socket := Execute(Request(number, pid, 0), socket + reply);
    }
  }

  function NextNumber(number: nat): nat {
    (number + 1) % SEQ_LIMIT
  }

  /** The outcomes of serial requests, each with the batches the kernel queues for it. */
  function Serve(number: nat, pid: int, socket: seq<seq<Msg>>, replies: seq<seq<seq<Msg>>>): (outs: seq<Outcome>)
    ensures |outs| == |replies|
    decreases |replies|
  {
    if replies == [] then []
    else
      var req := Request(NextNumber(number), pid, 0);
      var queue := socket + replies[0];
      [Answer(req, Flatten(queue))] + Serve(req.number, pid, Remaining(req, queue), replies[1..])
  }

  /** Number of the i-th request after `number`. */
  function NumberAt(number: nat, i: nat): nat {
    (number + 1 + i) % SEQ_LIMIT
  }

  ghost predicate NoneNumbered(batches: seq<seq<Msg>>, number: nat) {
    forall b, m :: b in batches && m in b ==> m.number != number
  }

  lemma {:induction false} MineSkips(req: Request, a: seq<Msg>, b: seq<Msg>)
    requires forall m :: m in a ==> !Ours(req, m)
    ensures Mine(req, a + b) == Mine(req, b)
  {
    if a == [] {
      assert a + b == b;
    } else {
      assert a[0] in a;
      MineSkips(req, a[1..], b);
      assert (a + b)[1..] == a[1..] + b;
    }
  }

  lemma {:induction false} FeedSkips(req: Request, p: Progress, msgs: seq<Msg>)
    requires forall m :: m in msgs ==> !Ours(req, m)
    ensures FeedAll(req, p, msgs) == p
  {
    if msgs != [] {
      FeedSkips(req, p, msgs[..|msgs| - 1]);
    }
  }

  /** The socket is a queue: collecting a request reads and drops every stale batch before its reply. */
  lemma {:induction false} StaleDropped(req: Request, socket: seq<seq<Msg>>, reply: seq<seq<Msg>>)
    requires NoneNumbered(socket, req.number)
    ensures Remaining(req, socket + reply) == Remaining(req, reply)
  {
    if socket == [] {
      assert socket + reply == reply;
    } else {
      assert socket[0] in socket;
      FeedSkips(req, Collecting([]), socket[0]);
      StaleDropped(req, socket[1..], reply);
      assert (socket + reply)[1..] == socket[1..] + reply;
    }
  }

  lemma {:induction false} RemainingIsPart(req: Request, p: Progress, batches: seq<seq<Msg>>)
    ensures forall b :: b in RemainingFrom(req, p, batches) ==> b in batches
    decreases |batches|
  {
    if batches != [] {
      RemainingIsPart(req, FeedAll(req, p, batches[0]), batches[1..]);
    }
  }

  lemma {:induction false} StaleSkipped(req: Request, socket: seq<seq<Msg>>, reply: seq<seq<Msg>>)
    requires NoneNumbered(socket, req.number)
    ensures Mine(req, Flatten(socket + reply)) == Mine(req, Flatten(reply))
  {
    if socket == [] {
      assert socket + reply == reply;
    } else {
      assert socket[0] in socket;
      StaleSkipped(req, socket[1..], reply);
      MineSkips(req, socket[0], Flatten(socket[1..] + reply));
      assert (socket + reply)[0] == socket[0] && (socket + reply)[1..] == socket[1..] + reply;
    }
  }

  /** Stale messages in the socket change nothing. */
  lemma StaleIgnored(req: Request, socket: seq<seq<Msg>>, reply: seq<seq<Msg>>)
    requires NoneNumbered(socket, req.number)
    ensures Answer(req, Flatten(socket + reply)) == Answer(req, Flatten(reply))
  {
    StaleSkipped(req, socket, reply);
  }

  /** Each request of a serial run answers from its own reply alone, as long as no reply holds a message with
      the number of the very next request: whatever is left in the socket, however Receive cuts the stream,
      and however often the 32-bit number comes round. */
  lemma {:induction false} ReplyIsolation(number: nat, pid: int, socket: seq<seq<Msg>>, replies: seq<seq<seq<Msg>>>,
                                          i: nat)
    requires i < |replies|
    requires NoneNumbered(socket, NumberAt(number, 0))
    requires forall j :: 0 <= j < |replies| ==> NoneNumbered(replies[j], NumberAt(number, j + 1))
    ensures Serve(number, pid, socket, replies)[i] == Answer(Request(NumberAt(number, i), pid, 0), Flatten(replies[i]))
    decreases |replies|
  {
    var req := Request(NextNumber(number), pid, 0);
    StaleIgnored(req, socket, replies[0]);
    if i > 0 {
      StaleDropped(req, socket, replies[0]);
      RemainingIsPart(req, Collecting([]), replies[0]);
      LaterReplies(number, replies);
      ReplyIsolation(req.number, pid, Remaining(req, replies[0]), replies[1..], i - 1);
      NumberShift(number, i - 1);
    }
  }

  lemma LaterReplies(number: nat, replies: seq<seq<seq<Msg>>>)
    requires replies != [] && forall j :: 0 <= j < |replies| ==> NoneNumbered(replies[j], NumberAt(number, j + 1))
    ensures NoneNumbered(replies[0], NumberAt(NextNumber(number), 0))
    ensures forall j :: 0 <= j < |replies[1..]| ==> NoneNumbered(replies[1..][j], NumberAt(NextNumber(number), j + 1))
  {
    NumberShift(number, 0);
    assert NoneNumbered(replies[0], NumberAt(number, 1));
    forall j | 0 <= j < |replies[1..]|
      ensures NoneNumbered(replies[1..][j], NumberAt(NextNumber(number), j + 1))
    {
      NumberShift(number, j + 1);
      assert NoneNumbered(replies[j + 1], NumberAt(number, j + 2));
    }
  }

  lemma NumberShift(number: nat, j: nat)
    ensures NumberAt(NextNumber(number), j) == NumberAt(number, j + 1)
  {}

  /** Over a run of any length, where the kernel tags its messages with the request's number, every request gets
      exactly the answer of its own reply, whatever stale messages of other numbers the socket held at first. */
  lemma RunIsolation(number: nat, pid: int, socket: seq<seq<Msg>>, replies: seq<seq<seq<Msg>>>, i: nat)
    requires i < |replies| && NoneNumbered(socket, NumberAt(number, 0))
    requires forall j, b, m :: 0 <= j < |replies| && b in replies[j] && m in b ==> m.number == NumberAt(number, j)
    ensures Serve(number, pid, socket, replies)[i] == Answer(Request(NumberAt(number, i), pid, 0), Flatten(replies[i]))
  {
    assert forall j: nat :: NumberAt(number, j) != NumberAt(number, j + 1);
    ReplyIsolation(number, pid, socket, replies, i);
  }

  /** The request numbers of a handle are 32 bits wide: two requests share one exactly when they are a multiple of
      4294967296 apart. */
  lemma NumbersRepeatIff(number: nat, i: nat, j: nat)
    ensures NumberAt(number, i) == NumberAt(number, j) <==> i % 4294967296 == j % 4294967296
    ensures NumberAt(0, 0) == 1
  {
    assert (number + 1 + i - (number + 1 + j)) % 4294967296 == (i - j) % 4294967296;
  }

  // ---------- what an answer is, message by message ----------

  /** A part of a multi-part answer: neither ERROR (2) nor DONE (3). */
  predicate IsPart(pid: int, m: Msg) {
    m.pid == pid && m.multi && m.kind != 2 && m.kind != 3
  }

  function DataOf(msgs: seq<Msg>): seq<Bytes> {
    seq(|msgs|, i requires 0 <= i < |msgs| => msgs[i].data)
  }

  lemma {:induction false} PayloadOfParts(req: Request, parts: seq<Msg>)
    requires req.resType == 0
    ensures Payload(req, parts) == DataOf(parts)
  {
    if parts != [] {
      var n := |parts| - 1;
      PayloadOfParts(req, parts[..n]);
      assert DataOf(parts) == DataOf(parts[..n]) + [parts[n].data];
    }
  }

  lemma {:induction false} StopAfterParts(req: Request, parts: seq<Msg>, t: Msg, rest: seq<Msg>)
    requires forall m :: m in parts ==> Continues(req, m)
    requires !Continues(req, t)
    ensures FirstStop(req, parts + [t] + rest) == |parts|
  {
    var own := parts + [t] + rest;
    if parts == [] {
      assert own[0] == t;
    } else {
      assert own[0] == parts[0] && parts[0] in parts;
      assert own[1..] == parts[1..] + [t] + rest;
      StopAfterParts(req, parts[1..], t, rest);
    }
  }

  lemma {:induction false} NoStopInParts(req: Request, parts: seq<Msg>)
    requires forall m :: m in parts ==> Continues(req, m)
    ensures FirstStop(req, parts) == |parts|
  {
    if parts != [] {
      assert parts[0] in parts;
      NoStopInParts(req, parts[1..]);
    }
  }

  /** The terminator t decides: a message with another pid is an error; DONE, and an ERROR message whose word is zero
      (the acknowledgement), end the answer; any other error word is the kernel's refusal; a single message ends
      the answer and belongs to it. What follows the terminator is not looked at. */
  ghost predicate EndsWith(pid: int, parts: seq<Msg>, t: Msg, r: Outcome) {
    && (t.pid != pid ==> r == WrongPid)
    && (t.pid == pid && t.kind == 3 ==> r == Data(DataOf(parts)))
    && (t.pid == pid && t.kind == 2 && |t.data| >= 4 ==>
          r == if t.data[..4] == [0, 0, 0, 0] then Data(DataOf(parts)) else Errno(t.data[..4]))
    && (t.pid == pid && t.kind != 2 && t.kind != 3 ==> r == Data(DataOf(parts) + [t.data]))
  }

  lemma AnswerOfParts(req: Request, msgs: seq<Msg>, parts: seq<Msg>, t: Msg, rest: seq<Msg>)
    requires req.resType == 0 && Mine(req, msgs) == parts + [t] + rest
    requires (forall m :: m in parts ==> IsPart(req.pid, m)) && !IsPart(req.pid, t)
    ensures EndsWith(req.pid, parts, t, Answer(req, msgs))
  {
    StopAfterParts(req, parts, t, rest);
    assert (parts + [t] + rest)[..|parts|] == parts;
    PayloadOfParts(req, parts);
    if |t.data| >= 4 {
      ZeroWord(t.data);
    }
  }

  lemma ZeroWord(data: Bytes)
    requires |data| >= 4
    ensures IsZeros(data[..4]) <==> data[..4] == [0, 0, 0, 0]
  {}

  /** Without a terminator the collector goes on waiting with what it has. */
  lemma WaitsForTerminator(req: Request, msgs: seq<Msg>)
    requires req.resType == 0 && forall m :: m in Mine(req, msgs) ==> IsPart(req.pid, m)
    ensures Answer(req, msgs) == Blocked(DataOf(Mine(req, msgs)))
  {
    NoStopInParts(req, Mine(req, msgs));
    PayloadOfParts(req, Mine(req, msgs));
  }

  lemma {:induction false} AllMine(req: Request, msgs: seq<Msg>)
    requires forall m :: m in msgs ==> m.number == req.number
    ensures Mine(req, msgs) == msgs
  {
    if msgs != [] {
      assert msgs[0] in msgs;
      AllMine(req, msgs[1..]);
    }
  }

  lemma {:induction false} FlattenMember(batches: seq<seq<Msg>>, m: Msg)
    requires m in Flatten(batches)
    ensures exists b :: b in batches && m in b
  {
    if m in batches[0] {
      assert batches[0] in batches;
    } else {
      FlattenMember(batches[1..], m);
      var b :| b in batches[1..] && m in b;
      assert b in batches;
    }
  }

  /** So in a serial run of any length each request ends as the terminator of its own reply says, whatever batches
      the reply is cut into: a kernel refusal of one command reaches the caller of that command, and no other. */
  lemma RunAnswers(number: nat, pid: int, replies: seq<seq<seq<Msg>>>, i: nat, parts: seq<Msg>, t: Msg, rest: seq<Msg>)
    requires i < |replies|
    requires forall j, b, m :: 0 <= j < |replies| && b in replies[j] && m in b ==> m.number == NumberAt(number, j)
    requires Flatten(replies[i]) == parts + [t] + rest
    requires (forall m :: m in parts ==> IsPart(pid, m)) && !IsPart(pid, t)
    ensures EndsWith(pid, parts, t, Serve(number, pid, [], replies)[i])
  {
    var req := Request(NumberAt(number, i), pid, 0);
    RunIsolation(number, pid, [], replies, i);
    forall m | m in Flatten(replies[i])
      ensures m.number == req.number
    {
      FlattenMember(replies[i], m);
    }
    AllMine(req, Flatten(replies[i]));
    AnswerOfParts(req, Flatten(replies[i]), parts, t, rest);
  }

  // ---------- what stays in the socket ----------

  lemma {:induction false} PartsGoOn(req: Request, res: seq<Bytes>, msgs: seq<Msg>)
    requires req.resType == 0 && forall m :: m in msgs && m.number == req.number ==> IsPart(req.pid, m)
    ensures FeedAll(req, Collecting(res), msgs).Collecting?
  {
    if msgs != [] {
      PartsGoOn(req, res, msgs[..|msgs| - 1]);
      assert msgs[|msgs| - 1] in msgs;
    }
  }

  lemma {:induction false} TerminatorEnds(req: Request, p: Progress, msgs: seq<Msg>, t: Msg)
    requires req.resType == 0 && t in msgs && t.number == req.number && !IsPart(req.pid, t)
    ensures FeedAll(req, p, msgs).Ended?
  {
    var n := |msgs| - 1;
    if t in msgs[..n] {
      TerminatorEnds(req, p, msgs[..n], t);
    } else {
      assert msgs[n] == t;
    }
  }

  /** The batch with the first terminator is read and dropped as a whole; exactly the later batches stay. */
  lemma {:induction false} LeftInSocket(req: Request, res: seq<Bytes>, before: seq<seq<Msg>>, last: seq<Msg>, t: Msg,
                                        after: seq<seq<Msg>>)
    requires req.resType == 0
    requires forall b, m :: b in before && m in b && m.number == req.number ==> IsPart(req.pid, m)
    requires t in last && t.number == req.number && !IsPart(req.pid, t)
    ensures RemainingFrom(req, Collecting(res), before + [last] + after) == after
    ensures res == [] ==> Remaining(req, before + [last] + after) == after
    decreases |before|
  {
    var all := before + [last] + after;
    if before == [] {
      TerminatorEnds(req, Collecting(res), last, t);
      assert all[0] == last && all[1..] == after;
    } else {
      assert before[0] in before;
      PartsGoOn(req, res, before[0]);
      var q := FeedAll(req, Collecting(res), before[0]);
      LeftInSocket(req, q.res, before[1..], last, t, after);
      assert all[0] == before[0] && all[1..] == before[1..] + [last] + after;
    }
  }

  // ---------- asking for one message type ----------

  /** Messages of the request that a wanted type makes the collector pass over. */
  predicate OtherType(req: Request, m: Msg) {
    m.number == req.number && m.pid == req.pid && m.kind != 2 && m.kind != 3 && m.kind != req.resType
  }

  function OfType(req: Request, msgs: seq<Msg>): seq<Msg> {
    if msgs == [] then []
    else
      var n := |msgs| - 1;
      OfType(req, msgs[..n]) + (if OtherType(req, msgs[n]) then [] else [msgs[n]])
  }

  /** Asking for a type is asking for everything in a stream from which the other types were taken out. */
  lemma {:induction false} TypedAnswer(req: Request, msgs: seq<Msg>)
    requires req.resType != 0
    ensures FeedAll(req, Collecting([]), msgs) == FeedAll(req.(resType := 0), Collecting([]), OfType(req, msgs))
    ensures Answer(req, msgs) == Answer(req.(resType := 0), OfType(req, msgs))
  {
    FoldIsAnswer(req, msgs);
    FoldIsAnswer(req.(resType := 0), OfType(req, msgs));
    if msgs != [] {
      var n := |msgs| - 1;
      var kept := OfType(req, msgs[..n]);
      TypedAnswer(req, msgs[..n]);
      if OtherType(req, msgs[n]) {
        assert kept + [] == kept;
      } else {
        assert (kept + [msgs[n]])[..|kept|] == kept;
      }
    }
  }
}
