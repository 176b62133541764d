/**
 * Runs of authorize_request of common/net/ws_server.c: any sequence of requests, with every check in
 * place, and what becomes of a replayed nonce.
 */
module RequestRuns {
  import opened Authorize
  import opened Bytes
  import opened Handshake
  import opened Headers
  import opened NonceCache
  import opened ReplayProtection

  /** A request with the server's clocks at that moment; time counts ticks without wrapping. */
  datatype Request = Request(headers: HeaderMap, time: nat, unixTime: uint64)

  ghost function DecisionOn(crypto: Crypto, cfg: Handshake.Config, cache: seq<Entry>, ttl: uint32, r: Request): Decision
    requires Handshake.Lawful(crypto) && Admissible(cfg)
  {
    Decide(crypto, cfg, cache, ttl, r.headers, Tick(r.time), r.unixTime)
  }

  /** The replay cache after a sequence of requests. */
  ghost function CacheAfter(crypto: Crypto, cfg: Handshake.Config, capacity: nat, ttl: uint32,
                            rs: seq<Request>): seq<Entry>
    requires Handshake.Lawful(crypto) && Admissible(cfg)
  {
    if |rs| == 0 then seq(capacity, _ => EMPTY)
    else
      var n := |rs| - 1;
      DecisionOn(crypto, cfg, CacheAfter(crypto, cfg, capacity, ttl, rs[..n]), ttl, rs[n]).cache
  }

  predicate ReachesNonceCheck(crypto: Crypto, cfg: Handshake.Config, r: Request) {
    && cfg.handshakeEnabled && BearerAccepted(cfg, r.headers)
    && PresentedNonce(r.headers).Some? && PresentedSignature(crypto, r.headers).Some?
  }

  function CallOf(crypto: Crypto, cfg: Handshake.Config, r: Request): Call
    requires ReachesNonceCheck(crypto, cfg, r)
  {
    var nonce, signature := PresentedNonce(r.headers).value, PresentedSignature(crypto, r.headers).value;
    Call(nonce, r.time, SignatureAccepted(crypto, cfg, nonce, signature))
  }

  /** The requests that get as far as the nonce check. */
  function Calls(crypto: Crypto, cfg: Handshake.Config, rs: seq<Request>): seq<Call> {
    if |rs| == 0 then []
    else
      var n := |rs| - 1;
      Calls(crypto, cfg, rs[..n]) + if ReachesNonceCheck(crypto, cfg, rs[n]) then [CallOf(crypto, cfg, rs[n])] else []
  }

  /** Requests that do not reach the nonce check leave the cache alone and, with handshakes on, are refused. */
  lemma OthersChangeNothing(crypto: Crypto, cfg: Handshake.Config, cache: seq<Entry>, ttl: uint32, r: Request)
    requires Handshake.Lawful(crypto) && Admissible(cfg) && !ReachesNonceCheck(crypto, cfg, r)
    ensures DecisionOn(crypto, cfg, cache, ttl, r).cache == cache
    ensures cfg.handshakeEnabled ==> !DecisionOn(crypto, cfg, cache, ttl, r).accepted
  {
    hide Swept, Stored, IsDuplicate, TotpAccepted;
  }

  /** The cache of any run of requests is that of the replay model's run of their calls. */
  lemma {:induction false} CacheIsModelled(crypto: Crypto, cfg: Handshake.Config, capacity: nat, ttl: uint32,
                                           rs: seq<Request>)
    requires Handshake.Lawful(crypto) && Admissible(cfg)
    ensures CacheAfter(crypto, cfg, capacity, ttl, rs) == Run(capacity, ttl, Calls(crypto, cfg, rs)).cache
    decreases |rs|
  {
    hide Decide, Next, ReachesNonceCheck, CallOf;
    if |rs| > 0 {
      var n := |rs| - 1;
      var before, r := Calls(crypto, cfg, rs[..n]), rs[n];
      CacheIsModelled(crypto, cfg, capacity, ttl, rs[..n]);
      if ReachesNonceCheck(crypto, cfg, r) {
        var calls := before + [CallOf(crypto, cfg, r)];
        assert calls[..|calls| - 1] == before;
        CallDecides(crypto, cfg, Run(capacity, ttl, before), ttl, r);
      } else {
        OthersChangeNothing(crypto, cfg, CacheAfter(crypto, cfg, capacity, ttl, rs[..n]), ttl, r);
        assert before + [] == before;
      }
    }
  }

  lemma CallDecides(crypto: Crypto, cfg: Handshake.Config, s: State, ttl: uint32, r: Request)
    requires Handshake.Lawful(crypto) && Admissible(cfg) && |s.cache| == |s.source| && ReachesNonceCheck(crypto, cfg, r)
    ensures var call, decision := CallOf(crypto, cfg, r), DecisionOn(crypto, cfg, s.cache, ttl, r);
            && decision.cache == ReplayProtection.Next(s, call, ttl).cache
            && (decision.accepted ==> !Refused(s, call, ttl) && call.signatureOk)
  {
    hide Swept, SlotFor, IsDuplicate, TotpAccepted;
    RequestIsCall(crypto, cfg, s, ttl, r.headers, r.time, r.unixTime);
  }

  ghost function LogAfter(crypto: Crypto, cfg: Handshake.Config, capacity: nat, ttl: uint32,
                          rs: seq<Request>): seq<StoreEvent>
    requires Handshake.Lawful(crypto) && Admissible(cfg)
  {
    Run(capacity, ttl, Calls(crypto, cfg, rs)).log
  }

  lemma CallsStep(crypto: Crypto, cfg: Handshake.Config, rs: seq<Request>, r: Request)
    ensures Calls(crypto, cfg, rs + [r])
         == Calls(crypto, cfg, rs) + if ReachesNonceCheck(crypto, cfg, r) then [CallOf(crypto, cfg, r)] else []
  {
    assert (rs + [r])[..|rs|] == rs;
  }

  lemma LogGrows(crypto: Crypto, cfg: Handshake.Config, capacity: nat, ttl: uint32, rs: seq<Request>, r: Request)
    requires Handshake.Lawful(crypto) && Admissible(cfg)
    ensures LogAfter(crypto, cfg, capacity, ttl, rs) <= LogAfter(crypto, cfg, capacity, ttl, rs + [r])
  {
    hide Next, ReachesNonceCheck, CallOf;
    CallsStep(crypto, cfg, rs, r);
    var before := Calls(crypto, cfg, rs);
    if ReachesNonceCheck(crypto, cfg, r) {
      var calls := before + [CallOf(crypto, cfg, r)];
      assert calls[..|calls| - 1] == before;
      NextLog(Run(capacity, ttl, before), CallOf(crypto, cfg, r), ttl);
    } else {
      assert before + [] == before;
    }
  }

  lemma AcceptedStores(crypto: Crypto, cfg: Handshake.Config, capacity: nat, ttl: uint32, rs: seq<Request>, r: Request)
    requires Handshake.Lawful(crypto) && Admissible(cfg) && cfg.handshakeEnabled && capacity > 0
    requires DecisionOn(crypto, cfg, CacheAfter(crypto, cfg, capacity, ttl, rs), ttl, r).accepted
    ensures PresentedNonce(r.headers).Some?
    ensures LogAfter(crypto, cfg, capacity, ttl, rs + [r])
         == LogAfter(crypto, cfg, capacity, ttl, rs) + [StoreEvent(PresentedNonce(r.headers).value, r.time)]
  {
    hide Decide, Refused, Sweep, SignatureAccepted, PresentedSignature, BearerAccepted;
    CacheIsModelled(crypto, cfg, capacity, ttl, rs);
    CallsStep(crypto, cfg, rs, r);
    var before := Calls(crypto, cfg, rs);
    var s := Run(capacity, ttl, before);
    if !ReachesNonceCheck(crypto, cfg, r) {
      OthersChangeNothing(crypto, cfg, s.cache, ttl, r);
      assert false;
    }
    CallDecides(crypto, cfg, s, ttl, r);
    var calls := before + [CallOf(crypto, cfg, r)];
    assert calls[..|calls| - 1] == before;
    SweepKeepsSize(s, CallOf(crypto, cfg, r), ttl);
  }

  lemma SweepKeepsSize(s: State, c: Call, ttl: uint32)
    ensures |Sweep(s, c, ttl).cache| == |s.cache|
    ensures Sweep(s, c, ttl).log == s.log && Sweep(s, c, ttl).source == s.source
  {
  }

  /** Every accepted request leaves its nonce in the log of stores. */
  lemma {:induction false} AcceptedIsLogged(crypto: Crypto, cfg: Handshake.Config, capacity: nat, ttl: uint32,
                                            rs: seq<Request>, i: nat) returns (j: nat)
    requires Handshake.Lawful(crypto) && Admissible(cfg) && cfg.handshakeEnabled && capacity > 0 && i < |rs|
    requires DecisionOn(crypto, cfg, CacheAfter(crypto, cfg, capacity, ttl, rs[..i]), ttl, rs[i]).accepted
    ensures PresentedNonce(rs[i].headers).Some?
    ensures j < |LogAfter(crypto, cfg, capacity, ttl, rs)|
    ensures LogAfter(crypto, cfg, capacity, ttl, rs)[j] == StoreEvent(PresentedNonce(rs[i].headers).value, rs[i].time)
    decreases |rs|
  {
    hide DecisionOn, CacheAfter, LogAfter, PresentedNonce;
    var n := |rs| - 1;
    assert rs == rs[..n] + [rs[n]];
    if i == n {
      AcceptedStores(crypto, cfg, capacity, ttl, rs[..n], rs[n]);
      j := |LogAfter(crypto, cfg, capacity, ttl, rs[..n])|;
    } else {
      assert rs[..n][..i] == rs[..i];
      j := AcceptedIsLogged(crypto, cfg, capacity, ttl, rs[..n], i);
      LogGrows(crypto, cfg, capacity, ttl, rs[..n], rs[n]);
    }
  }

  /**
   * A request that presents the nonce of an accepted one within its lifetime is refused, whatever else
   * it carries, unless more than capacity nonces, that one included, were stored since. The
   * capacity is positive: the server replaces a configured 0 by four times the number of clients, or by
   * 16 if that is 0 too.
   */
  lemma AcceptedOnce(crypto: Crypto, cfg: Handshake.Config, capacity: nat, ttl: uint32,
                     rs: seq<Request>, i: nat, r: Request)
    requires Handshake.Lawful(crypto) && Admissible(cfg) && cfg.handshakeEnabled && capacity > 0 && i < |rs|
    requires IsRun(capacity, ttl, Calls(crypto, cfg, rs + [r]))
    requires DecisionOn(crypto, cfg, CacheAfter(crypto, cfg, capacity, ttl, rs[..i]), ttl, rs[i]).accepted
    requires PresentedNonce(r.headers) == PresentedNonce(rs[i].headers) && r.time <= rs[i].time + ttl
    requires |StoresSince(LogAfter(crypto, cfg, capacity, ttl, rs), rs[i].time)| <= capacity
    ensures !DecisionOn(crypto, cfg, CacheAfter(crypto, cfg, capacity, ttl, rs), ttl, r).accepted
  {
    hide Decide, Refused, IsRun, StoresSince, SignatureAccepted, PresentedSignature, BearerAccepted, PresentedNonce;
    var j := AcceptedIsLogged(crypto, cfg, capacity, ttl, rs, i);
    CacheIsModelled(crypto, cfg, capacity, ttl, rs);
    CallsStep(crypto, cfg, rs, r);
    var calls := Calls(crypto, cfg, rs);
    if ReachesNonceCheck(crypto, cfg, r) {
      ReplayIsRefused(capacity, ttl, calls, j, CallOf(crypto, cfg, r));
      CallDecides(crypto, cfg, Run(capacity, ttl, calls), ttl, r);
    } else {
      OthersChangeNothing(crypto, cfg, CacheAfter(crypto, cfg, capacity, ttl, rs), ttl, r);
    }
  }
}
