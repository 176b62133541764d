/**
 * Runs of one direction of the secure channel: one sender whose frames reach any number of
 * receivers over a network that may drop, duplicate, reorder and corrupt them.
 *
 * Server to client, one broadcast counter serves every client (common/net/ws_server.c); client
 * to server there is one receiver per connection, which the server drops on a bad frame.
 */
module Channel {
  import opened Bytes
  import opened SecureFrame

  /** The receiving end is the client or the server; on both, encryption is on. */
  datatype Setup = Setup(aead: Aead, key: seq<byte>, atClient: bool)

  /** One frame that the sender produced. */
  datatype Sent = Sent(counter: uint64, iv: seq<byte>, plain: seq<byte>)

  /**
   * The type of a frame that arrives: binary, a ping or pong, or anything else, such as text. The
   * type is not protected by the cipher.
   */
  datatype Kind = Binary | Control | Other

  datatype Arrival = Arrival(kind: Kind, payload: seq<byte>)

  /** What the application gets: the plaintext of a sealed frame, or a payload just as it came. */
  datatype Delivery = FromSealed(plain: seq<byte>) | Unopened(payload: seq<byte>)

  /**
   * One connection: its replay counter, whether it is still up, every frame that arrived while
   * it was up, and everything handed to the application.
   */
  datatype Connection = Connection(up: bool, last: uint64, arrived: seq<Arrival>, delivered: seq<Delivery>)

  datatype State = State(txCounter: uint64, log: seq<Sent>, connections: seq<Connection>)

  datatype Step =
    | Send(plain: seq<byte>, iv: seq<byte>)
    | SendFails
    | Connect
    | Disconnect(id: nat)
    | Arrive(id: nat, frame: Arrival)

  const START := State(0, [], [])

  const FRESH := Connection(true, 0, [], [])

  function FrameOf(e: Setup, sent: Sent): seq<byte> {
    Seal(e.aead, e.key, sent.counter, sent.iv, sent.plain)
  }

  /** The client skips empty frames. */
  predicate Skipped(e: Setup, a: Arrival) {
    e.atClient && |a.payload| == 0
  }

  /** Only binary frames go through the cipher; the server answers pings and pongs by itself. */
  predicate HandedOnUnopened(e: Setup, a: Arrival) {
    !Skipped(e, a) && (a.kind.Other? || (a.kind.Control? && e.atClient))
  }

  function Receive(e: Setup, c: Connection, a: Arrival): Connection {
    var d := c.(arrived := c.arrived + [a]);
    if HandedOnUnopened(e, a) then d.(delivered := c.delivered + [Unopened(a.payload)])
    else if Skipped(e, a) || a.kind.Control? then d
    else match Open(e.aead, e.key, a.payload, c.last)
      case Opened(plain, counter) => d.(last := counter, delivered := c.delivered + [FromSealed(plain)])
      case Refused(_) => d.(up := c.up && e.atClient)
  }

  function Next(e: Setup, s: State, step: Step): State {
    match step
    case Send(plain, iv) =>
      var counter := (s.txCounter + 1) % TWO64;
      s.(txCounter := counter, log := s.log + [Sent(counter, iv, plain)])
    case SendFails => s.(txCounter := (s.txCounter + 1) % TWO64)
    case Connect => s.(connections := s.connections + [FRESH])
    case Disconnect(id) =>
      if id < |s.connections|
      then s.(connections := s.connections[id := s.connections[id].(up := false)])
      else s
    case Arrive(id, a) =>
      if id < |s.connections| && s.connections[id].up
      then s.(connections := s.connections[id := Receive(e, s.connections[id], a)])
      else s
  }

  function Run(e: Setup, steps: seq<Step>): State {
    if |steps| == 0 then START else Next(e, Run(e, steps[..|steps| - 1]), steps[|steps| - 1])
  }

  /** The plaintexts among what was delivered. */
  function OpenedOf(ds: seq<Delivery>): seq<seq<byte>> {
    if |ds| == 0 then []
    else OpenedOf(ds[..|ds| - 1]) + if ds[|ds| - 1].FromSealed? then [ds[|ds| - 1].plain] else []
  }

  /** The payloads of the binary frames that arrived. */
  function BinaryOf(arrived: seq<Arrival>): seq<seq<byte>> {
    if |arrived| == 0 then []
    else
      var a := arrived[|arrived| - 1];
      BinaryOf(arrived[..|arrived| - 1]) + if a.kind.Binary? then [a.payload] else []
  }

  lemma OpenedStep(ds: seq<Delivery>, d: Delivery)
    ensures OpenedOf(ds + [d]) == OpenedOf(ds) + if d.FromSealed? then [d.plain] else []
  {
    assert (ds + [d])[..|ds|] == ds;
  }

  // ---------- What is assumed of the environment ----------

  ghost predicate InLog(e: Setup, log: seq<Sent>, frame: seq<byte>) {
    exists i :: 0 <= i < |log| && FrameOf(e, log[i]) == frame
  }

  /** The cipher authenticates: a frame it accepts is one that this sender has sealed. */
  ghost predicate Genuine(e: Setup, log: seq<Sent>, frame: seq<byte>) {
    |frame| >= HEADER_LEN + TAG_LEN && Authenticated(e.aead, e.key, frame).Some? ==> InLog(e, log, frame)
  }

  /** Of frames that are not binary nothing is assumed. */
  ghost predicate ArrivesGenuine(e: Setup, log: seq<Sent>, a: Arrival) {
    a.kind.Binary? ==> Genuine(e, log, a.payload)
  }

  ghost predicate Allowed(e: Setup, s: State, step: Step) {
    match step
    case Send(_, iv) => |iv| == IV_LEN
    case Arrive(_, a) => ArrivesGenuine(e, s.log, a)
    case _ => true
  }

  /** A run: every binary arrival is authentic, and the 64-bit counter is not used up. */
  ghost predicate IsRun(e: Setup, steps: seq<Step>) {
    && Lawful(e.aead)
    && |steps| < TWO64
    && forall n :: 0 <= n < |steps| ==> Allowed(e, Run(e, steps[..n]), steps[n])
  }

  /**
   * The sender of these runs is the envelope in place: it produces the frame of one Send, or uses up a
   * counter value as one SendFails.
   */
  method Transmit(ctx: Context, e: Setup, ghost s: State, plain: array<byte>, out: array<byte>,
                  iv: seq<byte>, cipherOk: bool)
    returns (ok: bool, ghost step: Step)
    requires Lawful(ctx.aead) && ctx.encryptionEnabled && e.aead == ctx.aead && e.key == ctx.frameKey
    requires s.txCounter == ctx.txCounter && |iv| == IV_LEN && plain != out && out.Length == plain.Length + 38
    modifies ctx, out
    ensures ok == cipherOk && step == (if ok then Send(plain[..], iv) else SendFails)
    ensures var t := Next(e, s, step);
            && ctx.txCounter == t.txCounter && t.connections == s.connections
            && (ok ==> |t.log| == |s.log| + 1 && out[..] == FrameOf(e, t.log[|s.log|]))
            && (!ok ==> t.log == s.log)
  {
    hide HasLayout, Seal;
    assert plain[..plain.Length] == plain[..];
    var err, length := ctx.Encrypt(plain, plain.Length, out, out.Length, iv, cipherOk);
    ok := err == EspOk;
    step := if ok then Send(plain[..], iv) else SendFails;
    assert out[..out.Length] == out[..];
  }

  // ---------- Invariants of runs ----------

  ghost predicate LogInOrder(s: State) {
    && (forall i :: 0 <= i < |s.log| ==> |s.log[i].iv| == IV_LEN && 0 < s.log[i].counter <= s.txCounter)
    && (forall i, j :: 0 <= i < j < |s.log| ==> s.log[i].counter < s.log[j].counter)
  }

  /** A connection's counter and deliveries are what its arrivals make of a fresh connection. */
  function Replay(e: Setup, arrived: seq<Arrival>): Connection {
    if |arrived| == 0 then FRESH
    else Receive(e, Replay(e, arrived[..|arrived| - 1]), arrived[|arrived| - 1])
  }

  ghost predicate Sound(e: Setup, log: seq<Sent>, c: Connection) {
    && Replay(e, c.arrived).last == c.last && Replay(e, c.arrived).delivered == c.delivered
    && forall k :: 0 <= k < |c.arrived| ==> ArrivesGenuine(e, log, c.arrived[k])
  }

  ghost predicate Invariant(e: Setup, s: State) {
    LogInOrder(s) && forall id :: 0 <= id < |s.connections| ==> Sound(e, s.log, s.connections[id])
  }

  lemma GenuineStays(e: Setup, log: seq<Sent>, more: Sent, frame: seq<byte>)
    requires Genuine(e, log, frame)
    ensures Genuine(e, log + [more], frame)
  {
    if InLog(e, log, frame) {
      var i :| 0 <= i < |log| && FrameOf(e, log[i]) == frame;
      assert FrameOf(e, (log + [more])[i]) == frame;
    }
  }

  lemma SoundStays(e: Setup, log: seq<Sent>, more: Sent, c: Connection)
    requires Sound(e, log, c)
    ensures Sound(e, log + [more], c)
  {
    forall k | 0 <= k < |c.arrived|
      ensures ArrivesGenuine(e, log + [more], c.arrived[k])
    {
      if c.arrived[k].kind.Binary? {
        GenuineStays(e, log, more, c.arrived[k].payload);
      }
    }
  }

  /** What a frame does depends on the replay counter and on what was delivered before. */
  lemma ReceiveDependsOn(e: Setup, c: Connection, d: Connection, a: Arrival)
    requires c.last == d.last && c.delivered == d.delivered
    ensures Receive(e, c, a).arrived == c.arrived + [a]
    ensures Receive(e, c, a).last == Receive(e, d, a).last
    ensures Receive(e, c, a).delivered == Receive(e, d, a).delivered
  {
    hide Open, HandedOnUnopened, Skipped;
  }

  lemma SoundReceives(e: Setup, log: seq<Sent>, c: Connection, a: Arrival)
    requires Sound(e, log, c) && ArrivesGenuine(e, log, a)
    ensures Sound(e, log, Receive(e, c, a))
  {
    hide Receive, ArrivesGenuine;
    var arrived := c.arrived + [a];
    assert arrived[..|arrived| - 1] == c.arrived;
    ReceiveDependsOn(e, c, Replay(e, c.arrived), a);
  }

  lemma SoundAtEnds(e: Setup, log: seq<Sent>, c: Connection)
    ensures Sound(e, log, FRESH)
    ensures Sound(e, log, c) ==> Sound(e, log, c.(up := false))
  {
  }

  lemma SendKeepsInvariant(e: Setup, s: State, plain: seq<byte>, iv: seq<byte>)
    requires Invariant(e, s) && |iv| == IV_LEN && s.txCounter + 1 < TWO64
    ensures Invariant(e, Next(e, s, Send(plain, iv)))
  {
    hide Sound;
    var more := Sent((s.txCounter + 1) % TWO64, iv, plain);
    forall id | 0 <= id < |s.connections|
      ensures Sound(e, s.log + [more], s.connections[id])
    {
      SoundStays(e, s.log, more, s.connections[id]);
    }
  }

  lemma StepKeepsInvariant(e: Setup, s: State, step: Step)
    requires Invariant(e, s) && Allowed(e, s, step) && s.txCounter + 1 < TWO64
    ensures Invariant(e, Next(e, s, step))
    ensures Next(e, s, step).txCounter <= s.txCounter + 1
  {
    hide Receive, Sound, Genuine;
    match step {
      case Send(plain, iv) => SendKeepsInvariant(e, s, plain, iv);
      case SendFails =>
      case Connect => SoundAtEnds(e, s.log, FRESH);
      case Disconnect(id) =>
        if id < |s.connections| {
          SoundAtEnds(e, s.log, s.connections[id]);
        }
      case Arrive(id, a) =>
        if id < |s.connections| && s.connections[id].up {
          SoundReceives(e, s.log, s.connections[id], a);
        }
    }
  }

  lemma {:induction false} RunKeepsInvariant(e: Setup, steps: seq<Step>)
    requires IsRun(e, steps)
    ensures Invariant(e, Run(e, steps)) && Run(e, steps).txCounter <= |steps|
    decreases |steps|
  {
    if |steps| > 0 {
      var n := |steps| - 1;
      var earlier := steps[..n];
      forall m | 0 <= m < n
        ensures Allowed(e, Run(e, earlier[..m]), earlier[m])
      {
        assert earlier[..m] == steps[..m];
      }
      RunKeepsInvariant(e, earlier);
      StepKeepsInvariant(e, Run(e, earlier), steps[n]);
    }
  }

  // ---------- Safety: what is delivered ----------

  ghost predicate Increasing(idx: seq<nat>) {
    forall j, k :: 0 <= j < k < |idx| ==> idx[j] < idx[k]
  }

  /** The plaintexts are those of the sent messages at the given increasing positions. */
  ghost predicate SentAt(log: seq<Sent>, idx: seq<nat>, plains: seq<seq<byte>>) {
    && |idx| == |plains| && Increasing(idx)
    && forall k :: 0 <= k < |idx| ==> idx[k] < |log| && log[idx[k]].plain == plains[k]
  }

  /** The replay counter is that of the last delivered message. */
  ghost predicate LastOf(log: seq<Sent>, idx: seq<nat>, last: uint64) {
    if |idx| == 0 then last == 0 else idx[|idx| - 1] < |log| && last == log[idx[|idx| - 1]].counter
  }

  lemma ReceivePicksNext(e: Setup, s: State, idx: seq<nat>, c: Connection, a: Arrival)
    returns (idx': seq<nat>)
    requires Lawful(e.aead) && LogInOrder(s) && ArrivesGenuine(e, s.log, a)
    requires SentAt(s.log, idx, OpenedOf(c.delivered)) && LastOf(s.log, idx, c.last)
    ensures var d := Receive(e, c, a);
            SentAt(s.log, idx', OpenedOf(d.delivered)) && LastOf(s.log, idx', d.last)
  {
    hide Seal, OpenedOf;
    idx' := idx;
    if HandedOnUnopened(e, a) {
      OpenedStep(c.delivered, Unopened(a.payload));
    } else if a.kind.Binary? && Open(e.aead, e.key, a.payload, c.last).Opened? {
      var i :| 0 <= i < |s.log| && FrameOf(e, s.log[i]) == a.payload;
      SealOpens(e.aead, e.key, s.log[i].counter, s.log[i].iv, s.log[i].plain, c.last);
      OpenedStep(c.delivered, FromSealed(s.log[i].plain));
      if !Skipped(e, a) {
        idx' := idx + [i];
      }
    }
  }

  lemma {:induction false} ReplayPicks(e: Setup, s: State, arrived: seq<Arrival>) returns (idx: seq<nat>)
    requires Lawful(e.aead) && LogInOrder(s)
    requires forall k :: 0 <= k < |arrived| ==> ArrivesGenuine(e, s.log, arrived[k])
    ensures SentAt(s.log, idx, OpenedOf(Replay(e, arrived).delivered)) && LastOf(s.log, idx, Replay(e, arrived).last)
    decreases |arrived|
  {
    hide Receive;
    idx := [];
    if |arrived| > 0 {
      idx := ReplayPicks(e, s, arrived[..|arrived| - 1]);
      idx := ReceivePicksNext(e, s, idx, Replay(e, arrived[..|arrived| - 1]), arrived[|arrived| - 1]);
    }
  }

  /**
   * In every run and for every connection, whenever it joined, the plaintexts delivered from sealed
   * frames are a subsequence of what the sender sent: in order, none twice, none invented.
   */
  lemma DeliveredIsSubsequence(e: Setup, steps: seq<Step>, id: nat)
    requires IsRun(e, steps) && id < |Run(e, steps).connections|
    ensures exists idx: seq<nat> :: SentAt(Run(e, steps).log, idx, OpenedOf(Run(e, steps).connections[id].delivered))
  {
    RunKeepsInvariant(e, steps);
    var s := Run(e, steps);
    var idx := ReplayPicks(e, s, s.connections[id].arrived);
  }

  // ---------- What is delivered without the cipher ----------

  predicate AllFromSealed(ds: seq<Delivery>) {
    forall k :: 0 <= k < |ds| ==> ds[k].FromSealed?
  }

  /** Every frame that is not skipped or answered by the server itself is binary. */
  predicate OnlyBinary(e: Setup, arrived: seq<Arrival>) {
    forall k :: 0 <= k < |arrived| ==> !HandedOnUnopened(e, arrived[k])
  }

  lemma {:induction false} ReplayAllFromSealed(e: Setup, arrived: seq<Arrival>)
    ensures AllFromSealed(Replay(e, arrived).delivered) <==> OnlyBinary(e, arrived)
    decreases |arrived|
  {
    hide Open;
    if |arrived| > 0 {
      var n := |arrived| - 1;
      ReplayAllFromSealed(e, arrived[..n]);
      var before, after := Replay(e, arrived[..n]).delivered, Replay(e, arrived).delivered;
      assert before <= after;
      if HandedOnUnopened(e, arrived[n]) {
        assert after[|before|].Unopened?;
      }
    }
  }

  /**
   * In every run, everything a connection delivered went through the cipher if and only if no other
   * data frame arrived: a payload of another type is handed on as it is, whoever sent it.
   */
  lemma AllOpenedExactlyWhen(e: Setup, steps: seq<Step>, id: nat)
    requires IsRun(e, steps) && id < |Run(e, steps).connections|
    ensures var c := Run(e, steps).connections[id];
            AllFromSealed(c.delivered) <==> OnlyBinary(e, c.arrived)
  {
    RunKeepsInvariant(e, steps);
    ReplayAllFromSealed(e, Run(e, steps).connections[id].arrived);
  }

  /** A run in which nothing is sent and a data frame that is not binary arrives. */
  function UnsealedRun(kind: Kind, payload: seq<byte>): seq<Step> {
    [Connect, Arrive(0, Arrival(kind, payload))]
  }

  /**
   * Any payload that is not empty is delivered that way, although nothing was sent. Only what a server
   * answers itself is not.
   */
  lemma UnsealedDataIsDelivered(e: Setup, kind: Kind, payload: seq<byte>)
    requires Lawful(e.aead) && |payload| > 0 && !kind.Binary?
    ensures IsRun(e, UnsealedRun(kind, payload))
    ensures var s := Run(e, UnsealedRun(kind, payload));
            && s.log == [] && |s.connections| == 1
            && s.connections[0].up && s.connections[0].last == 0
            && s.connections[0].delivered == if kind.Other? || e.atClient then [Unopened(payload)] else []
  {
    hide Open;
    var steps := UnsealedRun(kind, payload);
    assert steps[..2] == steps && steps[..1] == [Connect] && steps[..1][..0] == [] && steps[..0] == [];
    assert Run(e, steps[..0]) == START;
    assert Run(e, steps[..1]) == Next(e, START, Connect);
    assert Run(e, steps) == Next(e, Run(e, steps[..1]), steps[1]);
  }

  // ---------- Liveness: sealed frames that arrive in order are all delivered ----------

  /** The frames are those of the sent messages at the given increasing positions. */
  ghost predicate FramesAt(e: Setup, log: seq<Sent>, idx: seq<nat>, frames: seq<seq<byte>>) {
    && |idx| == |frames| && Increasing(idx)
    && forall k :: 0 <= k < |idx| ==> idx[k] < |log| && FrameOf(e, log[idx[k]]) == frames[k]
  }

  lemma InOrderStep(e: Setup, s: State, idx: seq<nat>, c: Connection, a: Arrival, i: nat)
    requires Lawful(e.aead) && LogInOrder(s) && c.up && i < |s.log|
    requires SentAt(s.log, idx, OpenedOf(c.delivered)) && LastOf(s.log, idx, c.last)
    requires a.kind.Binary? && FrameOf(e, s.log[i]) == a.payload && Increasing(idx + [i])
    ensures var d := Receive(e, c, a);
            d.up && SentAt(s.log, idx + [i], OpenedOf(d.delivered)) && LastOf(s.log, idx + [i], d.last)
  {
    hide Seal, Open, OpenedOf;
    var sent := s.log[i];
    if |idx| > 0 {
      assert (idx + [i])[|idx| - 1] < (idx + [i])[|idx|];
    }
    SealOpens(e.aead, e.key, sent.counter, sent.iv, sent.plain, c.last);
    SealedFields(e.aead, e.key, sent.counter, sent.iv, sent.plain);
    OpenedStep(c.delivered, FromSealed(sent.plain));
  }

  lemma {:induction false} ReplayInOrder(e: Setup, s: State, arrived: seq<Arrival>, idx: seq<nat>)
    requires Lawful(e.aead) && LogInOrder(s) && FramesAt(e, s.log, idx, BinaryOf(arrived))
    ensures SentAt(s.log, idx, OpenedOf(Replay(e, arrived).delivered)) && LastOf(s.log, idx, Replay(e, arrived).last)
    ensures Replay(e, arrived).up
    decreases |arrived|
  {
    hide Receive;
    if |arrived| > 0 {
      var n := |arrived| - 1;
      var before := BinaryOf(arrived[..n]);
      var c := Replay(e, arrived[..n]);
      if arrived[n].kind.Binary? {
        var m := |idx| - 1;
        assert BinaryOf(arrived)[..m] == before;
        ReplayInOrder(e, s, arrived[..n], idx[..m]);
        assert idx == idx[..m] + [idx[m]];
        InOrderStep(e, s, idx[..m], c, arrived[n], idx[m]);
      } else {
        assert BinaryOf(arrived) == before;
        ReplayInOrder(e, s, arrived[..n], idx);
        OtherStep(e, s, idx, c, arrived[n]);
      }
    }
  }

  lemma OtherStep(e: Setup, s: State, idx: seq<nat>, c: Connection, a: Arrival)
    requires c.up && !a.kind.Binary?
    requires SentAt(s.log, idx, OpenedOf(c.delivered)) && LastOf(s.log, idx, c.last)
    ensures var d := Receive(e, c, a);
            d.up && SentAt(s.log, idx, OpenedOf(d.delivered)) && LastOf(s.log, idx, d.last)
  {
    hide OpenedOf, Open;
    OpenedStep(c.delivered, Unopened(a.payload));
  }

  /**
   * If a connection's sealed frames arrive in order with none repeated, every one of them is delivered,
   * whatever frames of other types arrive in between.
   */
  lemma InOrderArrivalsAreDelivered(e: Setup, steps: seq<Step>, id: nat, idx: seq<nat>)
    requires IsRun(e, steps) && id < |Run(e, steps).connections|
    requires FramesAt(e, Run(e, steps).log, idx, BinaryOf(Run(e, steps).connections[id].arrived))
    ensures SentAt(Run(e, steps).log, idx, OpenedOf(Run(e, steps).connections[id].delivered))
  {
    RunKeepsInvariant(e, steps);
    ReplayInOrder(e, Run(e, steps), Run(e, steps).connections[id].arrived, idx);
  }
}
