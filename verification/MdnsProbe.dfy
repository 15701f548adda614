/**
 Probing before a name is used (network/lwip_mdns/mdns_server.c, `mdns_probe`,
 `mdns_handle_response`, `mdns_handle_question`, `mdns_resp_announce`,
 `mdns_resp_restart`; section 8.1 of RFC 6762).
 */
module MdnsProbe {
  import opened Basics

  const PROBE_COUNT := 3

  datatype ProbingState = NotStarted | Ongoing | Complete

  // What happens to a host, in the order in which it is handled. Renaming the host and adding
  // or renaming a service are restarts.
  datatype Event =
    | Tick(sent: bool)        // the probe timer fires; a probe, if one is due, is sent or not
    | Answer(conflict: bool)  // an answer in a response; does it carry one of our names?
    | Query
    | AddressChange
    | Restart

  // ----- the host -----

  class Host {
    var probesSent: nat
    var probingState: ProbingState
    // The number of probe timers in the timeout queue.
    var timers: nat
    ghost var trace: seq<Event>

    ghost predicate Valid()
      reads this
    {
      StateAfter(trace) == State(probesSent, probingState, timers)
    }

    constructor ()
      ensures Valid() && trace == []
    {
      probesSent := 0;
      probingState := NotStarted;
      timers := 0;
      trace := [];
    }

    // `sys_untimeout` removes one entry, if there is one.
    method Untimeout()
      modifies this`timers
      ensures timers == if old(timers) > 0 then old(timers) - 1 else 0
    {
      if timers > 0 {
        timers := timers - 1;
      }
    }

    // `mdns_probe`, called by the timer; says whether an announcement was sent.
    method Probe(sent: bool) returns (announced: bool)
      requires Valid() && timers > 0
      modifies this
      ensures Valid() && trace == old(trace) + [Tick(sent)]
      ensures announced <==> Earned(trace) && !Earned(old(trace))
    {
      AlwaysAgree(trace);
      EarnedIsComplete(trace + [Tick(sent)]);
      timers := timers - 1;
      announced := false;
      trace := trace + [Tick(sent)];
      StateStep(old(trace), Tick(sent));
      if probesSent >= PROBE_COUNT {
        probingState := Complete;
        announced := Announce();
      } else {
        if sent {
          probesSent := probesSent + 1;
        }
        timers := timers + 1;
      }
    }

    // One answer of a response in `mdns_handle_response`; says whether a conflict was reported.
    method HandleAnswer(conflict: bool) returns (reported: bool)
      requires Valid()
      modifies this
      ensures Valid() && trace == old(trace) + [Answer(conflict)]
      ensures reported <==> conflict && Probing(old(trace))
    {
      ProbingIsOngoing(trace);
      reported := probingState == Ongoing && probesSent > 0 && conflict;
      if reported {
        Untimeout();
      }
      trace := trace + [Answer(conflict)];
      StateStep(old(trace), Answer(conflict));
    }

    // The guard of `mdns_handle_question`; says whether the question is looked at.
    method HandleQuestion() returns (answered: bool)
      requires Valid()
      modifies this`trace
      ensures Valid() && trace == old(trace) + [Query]
      ensures answered <==> Earned(old(trace))
    {
      EarnedIsComplete(trace);
      answered := probingState == Complete;
      trace := trace + [Query];
      StateStep(old(trace), Query);
    }

    // `mdns_resp_announce`: nothing goes out before the name has been earned.
    method Announce() returns (announced: bool)
      requires Valid()
      ensures announced <==> Earned(trace)
    {
      EarnedIsComplete(trace);
      announced := probingState == Complete;
    }

    // `mdns_resp_announce` after a change of address.
    method HandleAddressChange() returns (announced: bool)
      requires Valid()
      modifies this`trace
      ensures Valid() && trace == old(trace) + [AddressChange]
      ensures announced <==> Earned(old(trace))
    {
      announced := Announce();
      trace := trace + [AddressChange];
      StateStep(old(trace), AddressChange);
    }

    // `mdns_resp_restart`
    method Restart()
      requires Valid()
      modifies this
      ensures Valid() && trace == old(trace) + [Event.Restart]
    {
      if probingState == Ongoing {
        Untimeout();
      }
      probesSent := 0;
      probingState := Ongoing;
      timers := timers + 1;
      trace := trace + [Event.Restart];
      StateStep(old(trace), Event.Restart);
    }
  }

  // ----- runs -----

  datatype State = State(probes: nat, probing: ProbingState, timers: nat)

  function Step(s: State, e: Event): State {
    match e
    case Tick(sent) =>
      if s.timers == 0 then s
      else if s.probes >= PROBE_COUNT then State(s.probes, Complete, s.timers - 1)
      else State(if sent then s.probes + 1 else s.probes, s.probing, s.timers)
    case Answer(conflict) =>
      if s.probing == Ongoing && s.probes > 0 && conflict && s.timers > 0 then s.(timers := s.timers - 1) else s
    case Query => s
    case AddressChange => s
    case Restart =>
      State(0, Ongoing, (if s.probing == Ongoing && s.timers > 0 then s.timers - 1 else s.timers) + 1)
  }

  function StateAfter(trace: seq<Event>): State {
    if trace == [] then State(0, NotStarted, 0)
    else Step(StateAfter(trace[..|trace| - 1]), trace[|trace| - 1])
  }

  lemma StateStep(trace: seq<Event>, e: Event)
    ensures StateAfter(trace + [e]) == Step(StateAfter(trace), e)
  {
    assert (trace + [e])[..|trace|] == trace;
  }

  // ----- what earns the right to use a name, in terms of what happened alone -----

  // The events since the last restart; None if there was no restart.
  function SinceRestart(trace: seq<Event>): Option<seq<Event>> {
    if trace == [] then None
    else if trace[|trace| - 1] == Restart then Some([])
    else
      var s := SinceRestart(trace[..|trace| - 1]);
      if s.None? then None else Some(s.value + [trace[|trace| - 1]])
  }

  // The number of probes that were sent.
  function Sent(s: seq<Event>): nat {
    if s == [] then 0 else Sent(s[..|s| - 1]) + (if s[|s| - 1] == Tick(true) then 1 else 0)
  }

  // No conflicting answer came after the first probe.
  ghost predicate Clean(s: seq<Event>) {
    forall i :: 0 <= i < |s| && Sent(s[..i]) > 0 ==> s[i] != Answer(true)
  }

  // At some tick three probes had been sent and no conflicting answer had come after the first.
  ghost predicate VerifiedAt(s: seq<Event>, k: nat) {
    k < |s| && s[k].Tick? && Sent(s[..k]) >= 3 && Clean(s[..k])
  }

  ghost predicate Verified(s: seq<Event>) {
    exists k: nat :: VerifiedAt(s, k)
  }

  ghost predicate Earned(trace: seq<Event>) {
    SinceRestart(trace).Some? && Verified(SinceRestart(trace).value)
  }

  // A probe has been sent since the last restart, and the name is not in use yet.
  ghost predicate Probing(trace: seq<Event>) {
    SinceRestart(trace).Some? && Sent(SinceRestart(trace).value) > 0 && !Earned(trace)
  }

  // ----- the two agree on every run -----

  ghost predicate Agree(trace: seq<Event>) {
    var st := StateAfter(trace);
    match SinceRestart(trace)
    case None => st == State(0, NotStarted, 0)
    case Some(s) =>
      if Verified(s) then st == State(3, Complete, 0)
      else if Clean(s) then st == State(Sent(s), Ongoing, 1) && Sent(s) <= 3
      else st.probing == Ongoing && st.timers == 0 && st.probes > 0
  }

  lemma {:induction false} AlwaysAgree(trace: seq<Event>)
    ensures Agree(trace)
    decreases |trace|
  {
    if trace != [] {
      var before, e := trace[..|trace| - 1], trace[|trace| - 1];
      assert trace == before + [e];
      AlwaysAgree(before);
      if e != Restart && SinceRestart(before).Some? {
        AgreeStep(before, e);
      } else if e == Restart {
        NothingSince();
      }
    }
  }

  lemma NothingSince()
    ensures !Verified([]) && Clean([]) && Sent([]) == 0
  {
  }

  lemma AgreeStep(before: seq<Event>, e: Event)
    requires Agree(before) && e != Restart && SinceRestart(before).Some?
    ensures Agree(before + [e])
  {
    var s := SinceRestart(before).value;
    var s' := s + [e];
    assert (before + [e])[..|before|] == before;
    assert SinceRestart(before + [e]) == Some(s');
    SinceStep(s, e);
  }

  lemma SinceStep(s: seq<Event>, e: Event)
    ensures var s' := s + [e];
            && Sent(s') == Sent(s) + (if e == Tick(true) then 1 else 0)
            && (Clean(s') <==> Clean(s) && !(e == Answer(true) && Sent(s) > 0))
            && (Verified(s') <==> Verified(s) || (e.Tick? && Sent(s) >= 3 && Clean(s)))
  {
    var s' := s + [e];
    assert s'[..|s|] == s;
    forall i: nat | i < |s| ensures s'[..i] == s[..i] && s'[i] == s[i] {
    }
    forall k: nat | VerifiedAt(s, k) ensures VerifiedAt(s', k) {
    }
    forall k: nat | VerifiedAt(s', k) && k < |s| ensures VerifiedAt(s, k) {
    }
    if e.Tick? && Sent(s) >= 3 && Clean(s) {
      assert VerifiedAt(s', |s|);
    }
    if Clean(s') {
      forall i | 0 <= i < |s| && Sent(s[..i]) > 0 ensures s[i] != Answer(true) {
        assert s'[..i] == s[..i];
      }
      assert Sent(s'[..|s|]) > 0 ==> s'[|s|] != Answer(true);
    }
  }

  /** On every run, the name is in use exactly when, since the last restart, three probes went
      out, the timer fired once more, and no conflicting answer was handled in between. */
  lemma EarnedIsComplete(trace: seq<Event>)
    ensures StateAfter(trace).probing == Complete <==> Earned(trace)
  {
    AlwaysAgree(trace);
  }

  lemma ProbingIsOngoing(trace: seq<Event>)
    ensures Probing(trace) <==> StateAfter(trace).probing == Ongoing && StateAfter(trace).probes > 0
  {
    AlwaysAgree(trace);
    if SinceRestart(trace).Some? {
      var s := SinceRestart(trace).value;
      if !Clean(s) {
        var i :| 0 <= i < |s| && Sent(s[..i]) > 0 && s[i] == Answer(true);
        SentGrows(s, i);
      }
    }
  }

  lemma {:induction false} SentGrows(s: seq<Event>, i: nat)
    requires i <= |s|
    ensures Sent(s[..i]) <= Sent(s)
    decreases |s|
  {
    if i == |s| {
      assert s[..i] == s;
    } else {
      SentGrows(s[..|s| - 1], i);
      assert s[..|s| - 1][..i] == s[..i];
    }
  }

  /** After a conflict nothing completes, whatever happens, until a restart. */
  lemma ConflictIsFinal(trace: seq<Event>, later: seq<Event>)
    requires SinceRestart(trace).Some?
    requires !Clean(SinceRestart(trace).value) && !Earned(trace)
    requires Restart !in later
    ensures !Earned(trace + later) && StateAfter(trace + later).timers == 0
    decreases |later|
  {
    if later == [] {
      assert trace + later == trace;
      AlwaysAgree(trace);
    } else {
      var before, e := later[..|later| - 1], later[|later| - 1];
      assert Restart !in before;
      ConflictIsFinal(trace, before);
      assert trace + later == (trace + before) + [e];
      StateStep(trace + before, e);
      EarnedIsComplete(trace + before);
      EarnedIsComplete(trace + later);
    }
  }

  /** Three probes and one more tick earn the name, and not the three probes alone. */
  lemma ThreeProbes(sent: bool)
    ensures var t := [Restart, Tick(true), Tick(true), Tick(true)];
            !Earned(t) && Earned(t + [Tick(sent)]) && StateAfter(t + [Tick(sent)]) == State(3, Complete, 0)
  {
    var r := [Restart];
    var t := [Restart, Tick(true), Tick(true), Tick(true)];
    assert r[..0] == [];
    assert r + [Tick(true)] == t[..2] && t[..2] + [Tick(true)] == t[..3] && t[..3] + [Tick(true)] == t;
    StateStep([], Restart);
    assert [] + [Restart] == r;
    StateStep(r, Tick(true));
    StateStep(t[..2], Tick(true));
    StateStep(t[..3], Tick(true));
    StateStep(t, Tick(sent));
    EarnedIsComplete(t);
    EarnedIsComplete(t + [Tick(sent)]);
  }
}
