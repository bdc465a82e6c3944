/**
 * The server behind its response limiter, in the order dig-stun prescribes: classify, then ask the
 * limiter, and only then look at nonce and signature. What reaches the verifier is bounded by the
 * limiter's budgets and has been challenged before.
 */
module LimitedServer {
  import opened Prelude
  import opened Scope
  import opened TokenBuckets
  import Observe
  import ObserveRuns
  import RollingWindows
  import opened Server
  import History
  import Replies

  /** A datagram, with what the limiter is told about it: under which key, from where, and when. */
  datatype Arrival = Arrival(datagram: Bytes, port: u16, call: Observe.Call)

  function InputOf(a: Arrival): Input {
    Input(a.datagram, SocketAddr(a.call.request.source, a.port), a.call.request.nowMs / 1_000)
  }

  /** A datagram that is no Binding request is dropped before the limiter hears of it. */
  function CallsOf(s: Server, arrivals: seq<Arrival>): seq<Observe.Call> {
    if arrivals == [] then []
    else CallsOf(s, Front(arrivals)) + if Decision(s, InputOf(Last(arrivals))).Some? then [Last(arrivals).call] else []
  }

  /** Whether the last arrival is let through to the server. */
  predicate LetThrough(cfg: Observe.Config, s: Server, past: seq<Arrival>, a: Arrival) {
    Decision(s, InputOf(a)).Some? && Observe.Granted(cfg, CallsOf(s, past), a.call)
  }

  /** What the server gets to see. */
  function Passed(cfg: Observe.Config, s: Server, arrivals: seq<Arrival>): seq<Input> {
    if arrivals == [] then []
    else Passed(cfg, s, Front(arrivals))
         + if LetThrough(cfg, s, Front(arrivals), Last(arrivals)) then [InputOf(Last(arrivals))] else []
  }

  ghost predicate ArrivedInOrder(arrivals: seq<Arrival>) {
    InOrder(arrivals, (a: Arrival) => a.call.request.nowMs)
  }

  /** How many of the inputs arrive in the second. */
  function CountIn(inputs: seq<Input>, second: nat): nat {
    if inputs == [] then 0 else CountIn(Front(inputs), second) + if Last(inputs).nowSecs == second then 1 else 0
  }

  /** How many of those present a fresh nonce, so that the verifier is asked. */
  function VerifiedIn(s: Server, inputs: seq<Input>, second: nat): nat {
    if inputs == [] then 0
    else VerifiedIn(s, Front(inputs), second)
         + if Last(inputs).nowSecs == second && ReachesVerifier(s, Last(inputs)) then 1 else 0
  }

  lemma {:induction false} VerifiedAreCounted(s: Server, inputs: seq<Input>, second: nat)
    ensures VerifiedIn(s, inputs, second) <= CountIn(inputs, second)
  {
    hide ReachesVerifier;
    if inputs != [] {
      VerifiedAreCounted(s, Front(inputs), second);
    }
  }

  lemma CountExtends(inputs: seq<Input>, input: Input, second: nat)
    ensures CountIn(inputs + [input], second) == CountIn(inputs, second) + if input.nowSecs == second then 1 else 0
  {
    assert Front(inputs + [input]) == inputs;
  }

  lemma SpentExtends(cfg: Observe.Config, calls: seq<Observe.Call>, c: Observe.Call, second: nat)
    ensures ObserveRuns.Spent(ObserveRuns.Log(cfg, calls + [c]), ObserveRuns.OfSecond(second))
         == ObserveRuns.Spent(ObserveRuns.Log(cfg, calls), ObserveRuns.OfSecond(second))
            + if Observe.Granted(cfg, calls, c) && c.request.nowMs / 1_000 == second then 1 else 0
  {
    hide ObserveRuns.Log, ObserveRuns.Spent, Observe.Granted;
    assert Front(calls + [c]) == calls;
    ObserveRuns.LogLast(cfg, calls + [c], ObserveRuns.OfSecond(second));
  }

  /** What the server sees in a second is what the limiter granted in it. */
  lemma {:induction false} PassedAreGranted(cfg: Observe.Config, s: Server, arrivals: seq<Arrival>, second: nat)
    ensures CountIn(Passed(cfg, s, arrivals), second)
         == ObserveRuns.Spent(ObserveRuns.Log(cfg, CallsOf(s, arrivals)), ObserveRuns.OfSecond(second))
  {
    hide ObserveRuns.Log, ObserveRuns.Spent, Observe.Granted, Decision, CountIn;
    if arrivals == [] {
      NothingYet(cfg, second);
    } else {
      var past, a := Front(arrivals), Last(arrivals);
      PassedAreGranted(cfg, s, past, second);
      CountExtends(Passed(cfg, s, past), InputOf(a), second);
      SpentExtends(cfg, CallsOf(s, past), a.call, second);
      assert Passed(cfg, s, past) + [] == Passed(cfg, s, past) && CallsOf(s, past) + [] == CallsOf(s, past);
    }
  }

  lemma NothingYet(cfg: Observe.Config, second: nat)
    ensures CountIn([], second) == 0
    ensures ObserveRuns.Spent(ObserveRuns.Log(cfg, []), ObserveRuns.OfSecond(second)) == 0
  {
  }

  lemma {:induction false} CallsInOrder(s: Server, arrivals: seq<Arrival>)
    requires ArrivedInOrder(arrivals)
    ensures ObserveRuns.CalledInOrder(CallsOf(s, arrivals))
    ensures forall c :: c in CallsOf(s, arrivals) && arrivals != [] ==>
              c.request.nowMs <= Last(arrivals).call.request.nowMs
  {
    hide Decision;
    if arrivals != [] {
      var past, a := Front(arrivals), Last(arrivals);
      CallsInOrder(s, past);
      assert past != [] ==> Last(past).call.request.nowMs <= a.call.request.nowMs;
      var calls := CallsOf(s, past);
      forall i | 0 <= i < |calls| ensures calls[i].request.nowMs <= a.call.request.nowMs {
        assert calls[i] in calls;
      }
    }
  }

  /**
   * The verifier's load: over every run, whatever is evicted, it is asked at most as often in a
   * second as the global budget allows; and so is the server as a whole.
   */
  lemma VerifierLoad(cfg: Observe.Config, s: Server, arrivals: seq<Arrival>, second: nat)
    requires ArrivedInOrder(arrivals) && Observe.IsTrace(cfg, CallsOf(s, arrivals))
    ensures VerifiedIn(s, Passed(cfg, s, arrivals), second) <= CountIn(Passed(cfg, s, arrivals), second)
    ensures CountIn(Passed(cfg, s, arrivals), second) <= Refill(cfg.globalCapacity)
  {
    hide *;
    VerifiedAreCounted(s, Passed(cfg, s, arrivals), second);
    PassedAreGranted(cfg, s, arrivals, second);
    CallsInOrder(s, arrivals);
    RollingWindows.SecondWindow(cfg, CallsOf(s, arrivals), second);
    TimesIsProduct(Refill(cfg.globalCapacity), 1);
  }

  /**
   * Who gets through: whoever sends a Binding request, whatever its credentials, while all three
   * budgets are open by what went before.
   */
  lemma PassesIff(cfg: Observe.Config, s: Server, past: seq<Arrival>, a: Arrival)
    requires ArrivedInOrder(past + [a]) && Observe.IsTrace(cfg, CallsOf(s, past + [a]))
    ensures var lines, r := History.Foretold(cfg, CallsOf(s, past)), a.call.request;
            LetThrough(cfg, s, past, a)
            <==> (exists txid, d :: Replies.Asks(a.datagram, txid, d)) && History.SessionOpen(cfg, lines, r)
                 && History.SourceOpen(cfg, lines, r) && History.GlobalOpen(cfg, lines, r)
  {
    hide Replies.Asks, Decision, ArrivedInOrder, Observe.Granted, Observe.IsTrace, Observe.StateAfter, History.Foretold,
         History.Lines, History.SessionOpen, History.SourceOpen, History.GlobalOpen, ObserveRuns.CalledInOrder;
    Replies.RepliesIff(s, InputOf(a));
    CallsInOrder(s, past + [a]);
    assert Front(past + [a]) == past;
    if Decision(s, InputOf(a)).Some? {
      var calls := CallsOf(s, past);
      assert CallsOf(s, past + [a]) == calls + [a.call];
      LastIsForetold(cfg, calls, a.call);
    }
  }

  lemma LastIsForetold(cfg: Observe.Config, calls: seq<Observe.Call>, c: Observe.Call)
    requires Observe.IsTrace(cfg, calls + [c]) && ObserveRuns.CalledInOrder(calls + [c])
    ensures var lines := History.Foretold(cfg, calls);
            Observe.Granted(cfg, calls, c)
            <==> History.SessionOpen(cfg, lines, c.request) && History.SourceOpen(cfg, lines, c.request)
                 && History.GlobalOpen(cfg, lines, c.request)
  {
    hide ObserveRuns.CalledInOrder, Observe.StateAfter, Observe.Granted, History.SessionOpen, History.SourceOpen,
         History.GlobalOpen, Observe.CallAllowed, History.Lines, History.Foretold;
    assert Front(calls + [c]) == calls;
    ObserveRuns.PastInOrder(calls + [c]);
    History.HistoryDecides(cfg, calls);
    History.OpenIffPermits(cfg, calls + [c]);
    History.GrantedNeedsAll(cfg, calls, c);
  }

  lemma {:induction false} PassedInOrder(cfg: Observe.Config, s: Server, arrivals: seq<Arrival>)
    requires ArrivedInOrder(arrivals)
    ensures ReceivedInOrder(Passed(cfg, s, arrivals))
    ensures forall input :: input in Passed(cfg, s, arrivals) && arrivals != [] ==>
              input.nowSecs <= Last(arrivals).call.request.nowMs / 1_000
  {
    hide LetThrough;
    if arrivals != [] {
      var past, a := Front(arrivals), Last(arrivals);
      PassedInOrder(cfg, s, past);
      if past != [] {
        ObserveRuns.SecondMonotone(Last(past).call.request.nowMs, a.call.request.nowMs);
      }
      var passed := Passed(cfg, s, past);
      forall i | 0 <= i < |passed| ensures passed[i].nowSecs <= a.call.request.nowMs / 1_000 {
        assert passed[i] in passed;
      }
    }
  }

  /**
   * And whatever reaches it was challenged: the completed challenge was let through by the limiter
   * as well, for what the limiter refuses is not answered at all.
   */
  lemma LimitedVerification(cfg: Observe.Config, s: Server, arrivals: seq<Arrival>, i: nat)
    requires ArrivedInOrder(arrivals)
    requires var inputs := Passed(cfg, s, arrivals);
             && i < |inputs| && WithinOneTurn(inputs) && OnlyIssuedTags(s, inputs) && TagsDoNotCollide(s, inputs)
             && ReachesVerifier(s, inputs[i])
    ensures exists j :: 0 <= j < i && Completes(s, Passed(cfg, s, arrivals), j, i)
  {
    hide Passed, ArrivedInOrder, ReachesVerifier, WithinOneTurn, OnlyIssuedTags, TagsDoNotCollide, Completes;
    PassedInOrder(cfg, s, arrivals);
    ChallengeBeforeVerification(s, Passed(cfg, s, arrivals), i);
  }
}
