/**
 * The selection loop and the command loop of `disable_services`
 * (docesetup.py:529-578): one yes/no question per candidate service, in table
 * order, then `disable`, `stop` and `mask` for each service chosen.
 */
module Services {
  import opened Prompts
  import opened Text

  /** The candidate services, in the order they are offered. */
  const Candidates: seq<string> := ["cups-browsed", "avahi-daemon", "bluetooth", "ModemManager", "wpa_supplicant"]

  /** The answers to `n` yes/no questions asked in a row. */
  function AskAll(n: nat, input: seq<string>): (r: Reply<seq<bool>>)
    ensures r.Answered? ==> |r.value| == n && |r.rest| <= |input|
  {
    if n == 0 then Answered([], input)
    else match AskOutcome(input)
      case EndOfInput => EndOfInput
      case Answered(b, rest) =>
        match AskAll(n - 1, rest)
        case EndOfInput => EndOfInput
        case Answered(bs, rest2) => Answered([b] + bs, rest2)
  }

  /** The services answered with yes, in table order. */
  function Chosen(services: seq<string>, answers: seq<bool>): (r: seq<string>)
    requires |answers| == |services|
    ensures |r| <= |services|
  {
    if services == [] then []
    else (if answers[0] then [services[0]] else []) + Chosen(services[1..], answers[1..])
  }

  /**
   * The question loop from the `i`-th service on, with `selected` chosen so
   * far: the reply that ends with the list `selected_services`.
   */
  function SelectFrom(services: seq<string>, i: nat, selected: seq<string>, input: seq<string>): (r: Reply<seq<string>>)
    requires i <= |services|
    ensures r.Answered? ==> |r.rest| <= |input| && r.rest == input[|input| - |r.rest|..]
    decreases |services| - i
  {
    if i == |services| then Answered(selected, input)
    else match AskOutcome(input)
      case EndOfInput => EndOfInput
      case Answered(b, rest) => SelectFrom(services, i + 1, if b then selected + [services[i]] else selected, rest)
  }

  function SelectionOutcome(services: seq<string>, input: seq<string>): Reply<seq<string>> {
    SelectFrom(services, 0, [], input)
  }

  /** The question loop: one question per service; the chosen ones are appended in order. */
  method SelectServices(services: seq<string>, input: seq<string>) returns (r: Reply<seq<string>>)
    ensures r == SelectionOutcome(services, input)
  {
    var selected: seq<string> := [];
    var remaining := input;
    for i := 0 to |services|
      invariant SelectFrom(services, i, selected, remaining) == SelectionOutcome(services, input)
    {
      var reply := Ask(remaining);
      if reply.EndOfInput? {
        return EndOfInput;
      }
      if reply.value {
        selected := selected + [services[i]];
      }
      remaining := reply.rest;
    }
    return Answered(selected, remaining);
  }

  lemma ChosenStep(services: seq<string>, i: nat, selected: seq<string>, b: bool, answers: seq<bool>)
    requires i < |services| && |answers| == |services| - i - 1
    ensures (if b then selected + [services[i]] else selected) + Chosen(services[i + 1..], answers) ==
      selected + Chosen(services[i..], [b] + answers)
  {
    DropStep(services, i);
    ConsTail(b, answers);
  }

  /** The selection is the services whose questions, asked in turn, were answered with yes. */
  lemma {:induction false} SelectFromAnswers(services: seq<string>, i: nat, selected: seq<string>, input: seq<string>)
    requires i <= |services|
    ensures SelectFrom(services, i, selected, input) ==
      match AskAll(|services| - i, input)
      case EndOfInput => EndOfInput
      case Answered(answers, rest) => Answered(selected + Chosen(services[i..], answers), rest)
    decreases |services| - i
  {
    if i == |services| {
      assert selected + [] == selected;
    } else {
      match AskOutcome(input)
      case EndOfInput =>
      case Answered(b, rest) =>
        SelectFromAnswers(services, i + 1, if b then selected + [services[i]] else selected, rest);
        match AskAll(|services| - i - 1, rest)
        case EndOfInput =>
        case Answered(answers, rest2) =>
          ChosenStep(services, i, selected, b, answers);
    }
  }

  /** A service is chosen exactly when its question was answered with yes. */
  lemma {:induction false} ChosenMembers(services: seq<string>, answers: seq<bool>, s: string)
    requires |answers| == |services|
    ensures s in Chosen(services, answers) <==> exists i :: 0 <= i < |services| && answers[i] && services[i] == s
  {
    if services != [] {
      ChosenMembers(services[1..], answers[1..], s);
      if s in Chosen(services[1..], answers[1..]) {
        var i :| 0 <= i < |services| - 1 && answers[1..][i] && services[1..][i] == s;
        assert answers[i + 1] && services[i + 1] == s;
      }
      if exists i :: 0 <= i < |services| && answers[i] && services[i] == s {
        var i :| 0 <= i < |services| && answers[i] && services[i] == s;
        if i > 0 {
          assert answers[1..][i - 1] && services[1..][i - 1] == s;
        }
      }
    }
  }

  /** Answering yes to every question chooses every service, in order. */
  lemma {:induction false} ChosenAll(services: seq<string>, answers: seq<bool>)
    requires |answers| == |services| && forall i :: 0 <= i < |answers| ==> answers[i]
    ensures Chosen(services, answers) == services
  {
    if services != [] {
      ChosenAll(services[1..], answers[1..]);
      assert [services[0]] + services[1..] == services;
    }
  }

  /** `a` is `b` with some elements left out, the rest in the same order. */
  predicate IsSubsequence(a: seq<string>, b: seq<string>)
    decreases |b|
  {
    a == [] || (b != [] && ((a[0] == b[0] && IsSubsequence(a[1..], b[1..])) || IsSubsequence(a, b[1..])))
  }

  /** The selection is an ordered sub-list of the candidates. */
  lemma {:induction false} ChosenIsSubsequence(services: seq<string>, answers: seq<bool>)
    requires |answers| == |services|
    ensures IsSubsequence(Chosen(services, answers), services)
  {
    if services != [] {
      var tail := Chosen(services[1..], answers[1..]);
      ChosenIsSubsequence(services[1..], answers[1..]);
      if answers[0] {
        assert Chosen(services, answers) == [services[0]] + tail;
        assert ([services[0]] + tail)[1..] == tail;
      } else {
        assert Chosen(services, answers) == tail;
      }
    }
  }

  /** The three commands issued for one service. */
  function ServiceCommands(service: string): seq<string> {
    ["systemctl disable " + service, "systemctl stop " + service, "systemctl mask " + service]
  }

  /** The commands for the chosen services, in order. */
  function DisableCommandsOf(selected: seq<string>): seq<string> {
    if selected == [] then []
    else
      var n := |selected| - 1;
      DisableCommandsOf(selected[..n]) + ServiceCommands(selected[n])
  }

  /** The command loop: disable, stop, then mask, service after service. */
  method DisableCommands(selected: seq<string>) returns (commands: seq<string>)
    ensures commands == DisableCommandsOf(selected)
  {
    commands := [];
    for i := 0 to |selected|
      invariant commands == DisableCommandsOf(selected[..i])
    {
      assert selected[..i + 1][..i] == selected[..i];
      commands := commands + ["systemctl disable " + selected[i]];
      commands := commands + ["systemctl stop " + selected[i]];
      commands := commands + ["systemctl mask " + selected[i]];
    }
    assert selected[..|selected|] == selected;
  }

  /** Three commands per service: at `3i`, `3i+1` and `3i+2` the disable, stop and mask of the `i`-th one. */
  lemma {:induction false} DisableCommandsLayout(selected: seq<string>)
    ensures |DisableCommandsOf(selected)| == 3 * |selected|
    ensures forall i :: 0 <= i < |selected| ==>
      DisableCommandsOf(selected)[3 * i] == "systemctl disable " + selected[i] &&
      DisableCommandsOf(selected)[3 * i + 1] == "systemctl stop " + selected[i] &&
      DisableCommandsOf(selected)[3 * i + 2] == "systemctl mask " + selected[i]
  {
    if selected != [] {
      var n := |selected| - 1;
      DisableCommandsLayout(selected[..n]);
      forall i | 0 <= i < n
        ensures selected[..n][i] == selected[i]
      {
      }
    }
  }
}
