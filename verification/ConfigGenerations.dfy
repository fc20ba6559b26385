/**
 The `enabled` setting and the generation counter that drops stale configuration replies.
 Requests are answered in any order; checking a reply and applying it is one step.
 */
module ConfigGenerations {
  import opened Wrappers

  /** The counter is a `u64` and wraps. */
  const GENERATIONS: nat := 0x1_0000_0000_0000_0000

  datatype Event =
    | Requested
    | Pushed(pushed: Option<bool>)
    | Replied(request: nat, reply: Option<bool>)

  /**
   `bumps` counts every generation ever taken and `issued` holds, per request in the order sent,
   the count it was sent under; the counter only keeps them modulo its width.
   */
  datatype Config = Config(enabled: bool, bumps: nat, issued: seq<nat>, canRequest: bool) {
    function Generation(): nat { bumps % GENERATIONS }

    predicate Valid() {
      && (forall i :: 0 <= i < |issued| ==> 0 < issued[i] <= bumps)
      && (forall i, j :: 0 <= i < j < |issued| ==> issued[i] < issued[j])
    }
  }

  function Request(c: Config): Config {
    if c.canRequest then c.(bumps := c.bumps + 1, issued := c.issued + [c.bumps + 1]) else c
  }

  function Step(c: Config, e: Event): Config {
    match e
    case Requested => Request(c)
    case Pushed(Some(v)) => c.(bumps := c.bumps + 1, enabled := v)
    case Pushed(None) => Request(c)
    case Replied(i, reply) =>
      if i < |c.issued| && c.issued[i] % GENERATIONS == c.Generation() && reply.Some?
      then c.(enabled := reply.value)
      else c
  }

  function Run(c: Config, es: seq<Event>): Config {
    if es == [] then c else Step(Run(c, es[..|es| - 1]), es[|es| - 1])
  }

  /** The shared state, with the counter the implementation keeps. */
  class WorkspaceDiagnosticsState {
    var enabled: bool
    var generation: nat
    const canRequest: bool
    ghost var bumps: nat
    ghost var issued: seq<nat>

    ghost function View(): Config reads this { Config(enabled, bumps, issued, canRequest) }

    ghost predicate Valid() reads this { generation == View().Generation() && View().Valid() }

    constructor (default: bool, canRequest: bool)
      ensures Valid() && View() == Config(default, 0, [], canRequest)
    {
      enabled, generation, this.canRequest := default, 0, canRequest;
      bumps, issued := 0, [];
    }

    /** Takes the next generation. */
    method NextGeneration() returns (g: nat)
      requires Valid()
      modifies this`generation, this`bumps
      ensures View() == old(View()).(bumps := old(bumps) + 1) && Valid()
      ensures g == generation
    {
      generation := if generation + 1 == GENERATIONS then 0 else generation + 1;
      bumps := bumps + 1;
      g := generation;
    }

    /** Sends a request; its token is the generation it was sent under. */
    method RequestConfiguration() returns (token: Option<nat>)
      requires Valid()
      modifies this`generation, this`bumps, this`issued
      ensures Valid() && View() == Request(old(View()))
      ensures token == if canRequest then Some(View().Generation()) else None
    {
      if !canRequest {
        return None;
      }
      var g := NextGeneration();
      issued := issued + [bumps];
      token := Some(g);
    }

    method DidChangeConfiguration(value: Option<bool>) returns (token: Option<nat>)
      requires Valid()
      modifies this
      ensures Valid() && View() == Step(old(View()), Pushed(value))
      ensures token == if value.None? && canRequest then Some(View().Generation()) else None
    {
      token := None;
      if value.Some? {
        var _ := NextGeneration();
        enabled := value.value;
      } else {
        token := RequestConfiguration();
      }
    }

    /** A reply to request `i`, which carries the token it was sent with. */
    method Reply(ghost i: nat, token: nat, value: Option<bool>)
      requires Valid() && i < |issued| && token == issued[i] % GENERATIONS
      modifies this`enabled
      ensures Valid() && View() == Step(old(View()), Replied(i, value))
    {
      if generation != token {
        return;
      }
      if value.Some? {
        enabled := value.value;
      }
    }
  }

  lemma StepKeepsValid(c: Config, e: Event)
    requires c.Valid()
    ensures Step(c, e).Valid()
    ensures c.bumps <= Step(c, e).bumps && c.issued <= Step(c, e).issued
    ensures forall i :: |c.issued| <= i < |Step(c, e).issued| ==> c.bumps < Step(c, e).issued[i]
  {
  }

  lemma {:induction false} RunKeepsValid(c: Config, es: seq<Event>)
    requires c.Valid()
    ensures Run(c, es).Valid()
    ensures c.bumps <= Run(c, es).bumps && c.issued <= Run(c, es).issued
    ensures forall i :: |c.issued| <= i < |Run(c, es).issued| ==> c.bumps < Run(c, es).issued[i]
  {
    if es != [] {
      RunKeepsValid(c, es[..|es| - 1]);
      StepKeepsValid(Run(c, es[..|es| - 1]), es[|es| - 1]);
    }
  }

  /** Two counts have one generation exactly when the counter went round a whole number of times between them. */
  lemma GenerationsDistinguish(a: nat, b: nat)
    requires a <= b
    ensures a % GENERATIONS == b % GENERATIONS <==> (b - a) % GENERATIONS == 0
    ensures b < a + GENERATIONS ==> (a % GENERATIONS == b % GENERATIONS <==> a == b)
  {
  }

  /**
   A reply takes effect exactly when the generations taken since its request are a multiple of
   2^64: unless the counter has come round, a superseded request's reply never changes the setting.
   */
  lemma ReplyAppliesIffCurrent(c: Config, i: nat, value: bool)
    requires c.Valid() && i < |c.issued|
    ensures Step(c, Replied(i, Some(value))) ==
            if (c.bumps - c.issued[i]) % GENERATIONS == 0 then c.(enabled := value) else c
    ensures Step(c, Replied(i, None)) == c
    ensures c.bumps - c.issued[i] < GENERATIONS ==>
              ((c.bumps - c.issued[i]) % GENERATIONS == 0 <==> c.issued[i] == c.bumps)
  {
    GenerationsDistinguish(c.issued[i], c.bumps);
  }

  /**
   Settings without the key ask for the configuration, as a request does: when the client can be asked,
   one more request is out under a new generation, which every earlier one is now behind; else nothing
   changes. The setting itself waits for the reply.
   */
  lemma MissingKeyRequests(c: Config, e: Event)
    requires c.Valid() && (e == Requested || e == Pushed(None))
    ensures var t := Step(c, e);
            if c.canRequest
            then && |t.issued| == |c.issued| + 1 && t.issued[..|c.issued|] == c.issued
                 && t.issued[|c.issued|] == t.bumps == c.bumps + 1
                 && (forall i :: 0 <= i < |c.issued| ==> t.issued[i] < t.bumps)
                 && t.enabled == c.enabled && t.canRequest
            else t == c
  {
  }

  /** A push takes a generation too, so it supersedes every request out, and sends none. */
  lemma PushSupersedes(c: Config, value: bool)
    requires c.Valid()
    ensures var t := Step(c, Pushed(Some(value)));
            && t == Config(value, c.bumps + 1, c.issued, c.canRequest)
            && (forall i :: 0 <= i < |t.issued| ==> t.issued[i] < t.bumps)
  {
  }

  /** After 2^64 further generations a stale token is taken for a current one. */
  lemma WrappedTokenApplies(c: Config, i: nat, value: bool)
    requires c.Valid() && i < |c.issued| && c.bumps == c.issued[i] + GENERATIONS
    ensures Step(c, Replied(i, Some(value))) == c.(enabled := value)
  {
    assert (c.issued[i] + GENERATIONS) % GENERATIONS == c.issued[i] % GENERATIONS;
  }

  /** No later push, and replies only to requests sent before the first `known` were. */
  predicate OnlyOldReplies(es: seq<Event>, known: nat) {
    forall i :: 0 <= i < |es| ==>
      match es[i]
      case Requested => true
      case Pushed(value) => value.None?
      case Replied(request, _) => request < known
  }

  /** A pushed value stands, over every interleaving, until a later push or a later request's reply. */
  lemma {:induction false} PushStands(c: Config, value: bool, es: seq<Event>)
    requires c.Valid() && OnlyOldReplies(es, |c.issued|)
    requires Run(Step(c, Pushed(Some(value))), es).bumps < GENERATIONS
    ensures Run(Step(c, Pushed(Some(value))), es).enabled == value
  {
    if es != [] {
      var init, e := es[..|es| - 1], es[|es| - 1];
      var pushed := Step(c, Pushed(Some(value)));
      var before := Run(pushed, init);
      assert forall i :: 0 <= i < |init| ==> init[i] == es[i];
      StepKeepsValid(c, Pushed(Some(value)));
      RunKeepsValid(pushed, init);
      StepKeepsValid(before, e);
      PushStands(c, value, init);
      if e.Replied? {
        assert before.issued[e.request] == c.issued[e.request] <= c.bumps < before.bumps;
        GenerationsDistinguish(before.issued[e.request], before.bumps);
      }
    }
  }

  /** Whatever happens in between, the setting only ever takes a pushed value or a current reply's. */
  lemma ChangesOnlyBy(c: Config, e: Event)
    requires c.Valid() && c.bumps < GENERATIONS
    ensures Step(c, e).enabled != c.enabled ==>
              || (e.Pushed? && e.pushed == Some(Step(c, e).enabled))
              || (e.Replied? && e.reply == Some(Step(c, e).enabled) && |c.issued| > 0 &&
                  e.request == |c.issued| - 1 && c.issued[e.request] == c.bumps)
  {
    if e.Replied? && e.request < |c.issued| {
      GenerationsDistinguish(c.issued[e.request], c.bumps);
      var last := |c.issued| - 1;
      assert e.request < last ==> c.issued[e.request] < c.issued[last];
    }
  }
}
