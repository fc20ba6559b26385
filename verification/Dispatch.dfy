/**
 The URL-anchored request engine as steps that interleave with document writes: probe the
 version, snapshot the document, convert the params, call the server, probe again, convert
 the result. The version and the snapshot are read in separate steps.
 */
module Dispatch {
  import opened Wrappers

  datatype Document = Document(version: int, text: string)

  /**
   What the store holds for the request's URL, and the highest version it ever held.
   `fallback` is the primed disk snapshot for an untracked URL.
   */
  datatype Store = Store(tracked: Option<Document>, fallback: Option<Document>, highest: int)

  /** How far a request is; `probed` is the document behind the first version probe. */
  datatype Phase =
    | Priming
    | Probing
    | Snapshotting(probed: Option<Document>)
    | Converting(probed: Option<Document>, snapshot: Option<Document>)
    | Calling(probed: Option<Document>, snapshot: Option<Document>, paramsAgainst: Option<Document>)
    | Reprobing(probed: Option<Document>, snapshot: Option<Document>, paramsAgainst: Option<Document>)
    | Responding(snapshot: Option<Document>, paramsAgainst: Option<Document>, current: Option<Document>)
    | Responded(paramsAgainst: Option<Document>, resultAgainst: Option<Document>, current: Option<Document>)
    | ContentModified

  datatype State = State(store: Store, phase: Phase)

  /** `Install` is any write of a document generation: an open, a change, a save, a disk refresh. */
  datatype Event =
    | Install(document: Document)
    | Untrack
    | Prime(disk: Option<Document>)
    | Advance

  /** The clone-free version probe. */
  function VersionOf(document: Option<Document>): Option<int> {
    match document case None => None case Some(d) => Some(d.version)
  }

  /** The conversion document: the tracked snapshot, or the primed fallback. */
  function ConversionDocument(s: Store): Option<Document> {
    if s.tracked.Some? then s.tracked else s.fallback
  }

  /** The request's own next step. */
  function Proceed(s: State): Phase {
    match s.phase
    case Priming => Probing
    case Probing => Snapshotting(s.store.tracked)
    case Snapshotting(probed) => Converting(probed, ConversionDocument(s.store))
    case Converting(probed, snapshot) => Calling(probed, snapshot, snapshot)
    case Calling(probed, snapshot, against) => Reprobing(probed, snapshot, against)
    case Reprobing(probed, snapshot, against) =>
      var now := VersionOf(s.store.tracked);
      if now.Some? && now != VersionOf(probed) then ContentModified
      else Responding(snapshot, against, s.store.tracked)
    case Responding(snapshot, against, current) => Responded(against, snapshot, current)
    case Responded(_, _, _) => s.phase
    case ContentModified => s.phase
  }

  function Step(s: State, e: Event): State {
    match e
    case Install(d) =>
      s.(store := s.store.(tracked := Some(d), highest := if d.version > s.store.highest then d.version else s.store.highest))
    case Untrack => s.(store := s.store.(tracked := None))
    case Prime(disk) => s.(store := s.store.(fallback := disk))
    case Advance => s.(phase := Proceed(s))
  }

  function Run(s: State, es: seq<Event>): State {
    if es == [] then s else Step(Run(s, es[..|es| - 1]), es[|es| - 1])
  }

  predicate Initial(s: State) { s.phase == Priming }

  /** The document behind the first version probe, between the two probes. */
  function Probed(phase: Phase): Option<Document> {
    match phase
    case Snapshotting(probed) => probed
    case Converting(probed, _) => probed
    case Calling(probed, _, _) => probed
    case Reprobing(probed, _, _) => probed
    case _ => None
  }

  predicate BetweenProbes(phase: Phase) {
    phase.Snapshotting? || phase.Converting? || phase.Calling? || phase.Reprobing?
  }

  // ------------------------------------------------------------ what a response was converted against

  predicate AfterSnapshot(phase: Phase) { phase.Converting? || phase.Calling? || phase.Reprobing? }

  /** The last write between the snapshot and the second probe. */
  function LastWrite(s: State, es: seq<Event>): Option<Document> {
    if es == [] then None
    else
      var e := es[|es| - 1];
      if e.Install? && AfterSnapshot(Run(s, es[..|es| - 1]).phase) then Some(e.document)
      else LastWrite(s, es[..|es| - 1])
  }

  /** The document tracked at the first version probe. */
  function FirstProbed(s: State, es: seq<Event>): Option<Document> {
    if es == [] then None
    else
      var before := Run(s, es[..|es| - 1]);
      if before.phase.Probing? && es[|es| - 1].Advance? then before.store.tracked
      else FirstProbed(s, es[..|es| - 1])
  }

  /** What is tracked after the snapshot: the last write since, else the snapshot itself, else nothing. */
  predicate WrittenOrSnapshot(tracked: Option<Document>, written: Option<Document>, snapshot: Option<Document>) {
    tracked.Some? ==> tracked == if written.Some? then written else snapshot
  }

  /** How the state stands to the writes of its run, whatever their versions. */
  predicate Inv(s: State, written: Option<Document>, probed: Option<Document>) {
    match s.phase
    case Priming => written.None?
    case Probing => written.None?
    case Snapshotting(_) => written.None? && Probed(s.phase) == probed
    case Converting(_, snapshot) =>
      WrittenOrSnapshot(s.store.tracked, written, snapshot) && Probed(s.phase) == probed
    case Calling(_, snapshot, against) =>
      && WrittenOrSnapshot(s.store.tracked, written, snapshot) && Probed(s.phase) == probed
      && against == snapshot
    case Reprobing(_, snapshot, against) =>
      && WrittenOrSnapshot(s.store.tracked, written, snapshot) && Probed(s.phase) == probed
      && against == snapshot
    case Responding(snapshot, against, current) =>
      && WrittenOrSnapshot(current, written, snapshot) && against == snapshot
      && (current.Some? ==> VersionOf(current) == VersionOf(probed))
    case Responded(against, result, current) =>
      && WrittenOrSnapshot(current, written, result) && against == result
      && (current.Some? ==> VersionOf(current) == VersionOf(probed))
    case ContentModified => true
  }

  lemma {:induction false} RunKeepsInv(s: State, es: seq<Event>)
    requires Initial(s)
    ensures Inv(Run(s, es), LastWrite(s, es), FirstProbed(s, es))
  {
    if es != [] {
      RunKeepsInv(s, es[..|es| - 1]);
    }
  }

  /**
   Over every interleaving with any writes, a response for a URL tracked at the second probe was
   converted, params and result, against one document. That is the document current there if and
   only if nothing was written since its snapshot, or the last write put it back. A last write,
   right or wrong, passed the probe under the version probed first.
   */
  lemma ResponseIsCurrentIff(s: State, es: seq<Event>)
    requires Initial(s) && Run(s, es).phase.Responded? && Run(s, es).phase.current.Some?
    ensures var done, written := Run(s, es).phase, LastWrite(s, es);
            && done.paramsAgainst == done.resultAgainst
            && (done.resultAgainst == done.current <==> written.None? || written == done.resultAgainst)
            && (written.Some? ==> written == done.current && VersionOf(written) == VersionOf(FirstProbed(s, es)))
  {
    RunKeepsInv(s, es);
  }

  // ------------------------------------------------------------ writes that do not repeat the probed version

  /** No write between the two probes carries the version probed first. */
  predicate NoVersionRepeats(s: State, es: seq<Event>) {
    es == [] ||
    (var e := es[|es| - 1];
     && NoVersionRepeats(s, es[..|es| - 1])
     && (e.Install? ==> Some(e.document.version) != VersionOf(Probed(Run(s, es[..|es| - 1]).phase))))
  }

  lemma {:induction false} LastWriteIsNew(s: State, es: seq<Event>)
    requires Initial(s) && NoVersionRepeats(s, es)
    ensures LastWrite(s, es).Some? ==> VersionOf(LastWrite(s, es)) != VersionOf(FirstProbed(s, es))
  {
    if es != [] {
      LastWriteIsNew(s, es[..|es| - 1]);
      RunKeepsInv(s, es[..|es| - 1]);
    }
  }

  /** Then no response for a URL tracked at the second probe is stale. Versions need not be ordered. */
  lemma ResponseIsNotStale(s: State, es: seq<Event>)
    requires Initial(s) && NoVersionRepeats(s, es)
    requires Run(s, es).phase.Responded? && Run(s, es).phase.current.Some?
    ensures var done := Run(s, es).phase;
            done.paramsAgainst == done.current && done.resultAgainst == done.current
  {
    ResponseIsCurrentIff(s, es);
    LastWriteIsNew(s, es);
  }

  // ------------------------------------------------------------ changes of increasing version

  /** Every write has a version above all before it: `didChange` steps and no save. */
  predicate IncreasingVersions(s: State, es: seq<Event>) {
    es == [] ||
    (var e := es[|es| - 1];
     && IncreasingVersions(s, es[..|es| - 1])
     && (e.Install? ==> e.document.version > Run(s, es[..|es| - 1]).store.highest))
  }

  predicate BelowHighest(s: State, document: Option<Document>) {
    document.Some? ==> document.value.version <= s.store.highest
  }

  /** Writes of increasing version repeat none. */
  lemma {:induction false} IncreasingNeverRepeats(s: State, es: seq<Event>)
    requires Initial(s) && BelowHighest(s, s.store.tracked) && IncreasingVersions(s, es)
    ensures NoVersionRepeats(s, es)
    ensures BelowHighest(Run(s, es), Run(s, es).store.tracked)
    ensures BelowHighest(Run(s, es), Probed(Run(s, es).phase))
  {
    if es != [] {
      IncreasingNeverRepeats(s, es[..|es| - 1]);
    }
  }

  /** So over every interleaving with `didChange` steps of strictly increasing version no response is stale. */
  lemma ChangesNeverGoUnnoticed(s: State, es: seq<Event>)
    requires Initial(s) && BelowHighest(s, s.store.tracked) && IncreasingVersions(s, es)
    requires Run(s, es).phase.Responded? && Run(s, es).phase.current.Some?
    ensures var done := Run(s, es).phase;
            done.paramsAgainst == done.current && done.resultAgainst == done.current
  {
    IncreasingNeverRepeats(s, es);
    ResponseIsNotStale(s, es);
  }

  // ------------------------------------------------------------ which requests are refused

  /** The last write since the first version probe. */
  function LastSinceProbe(s: State, es: seq<Event>): Option<Document> {
    if es == [] then None
    else
      var e := es[|es| - 1];
      if e.Install? && BetweenProbes(Run(s, es[..|es| - 1]).phase) then Some(e.document)
      else LastSinceProbe(s, es[..|es| - 1])
  }

  /** Between the probes, what is tracked is the last write since the first, else the probed document, else nothing. */
  lemma {:induction false} WrittenOrProbed(s: State, es: seq<Event>)
    requires Initial(s)
    ensures var now := Run(s, es);
            && (now.phase.Priming? || now.phase.Probing? ==> LastSinceProbe(s, es).None?)
            && (BetweenProbes(now.phase) ==>
                  WrittenOrSnapshot(now.store.tracked, LastSinceProbe(s, es), Probed(now.phase)))
  {
    if es != [] {
      WrittenOrProbed(s, es[..|es| - 1]);
    }
  }

  /**
   The second probe refuses a request exactly when its URL is tracked there and the last write
   since the first probe, of which there is one, carries another version than the one probed first.
   */
  lemma RefusedIffWritten(s: State, es: seq<Event>)
    requires Initial(s) && Run(s, es).phase.Reprobing?
    ensures Step(Run(s, es), Advance).phase == ContentModified <==>
            && Run(s, es).store.tracked.Some?
            && LastSinceProbe(s, es).Some?
            && VersionOf(LastSinceProbe(s, es)) != VersionOf(FirstProbed(s, es))
  {
    WrittenOrProbed(s, es);
    RunKeepsInv(s, es);
  }

  // ------------------------------------------------------------ the conversion document, read off the events

  /** The document tracked after some events. */
  function TrackedBy(s: State, es: seq<Event>): Option<Document> {
    if es == [] then s.store.tracked
    else
      match es[|es| - 1]
      case Install(d) => Some(d)
      case Untrack => None
      case _ => TrackedBy(s, es[..|es| - 1])
  }

  /** The disk snapshot primed last. */
  function PrimedBy(s: State, es: seq<Event>): Option<Document> {
    if es == [] then s.store.fallback
    else
      match es[|es| - 1]
      case Prime(disk) => disk
      case _ => PrimedBy(s, es[..|es| - 1])
  }

  function Steps(es: seq<Event>): nat {
    if es == [] then 0 else Steps(es[..|es| - 1]) + if es[|es| - 1].Advance? then 1 else 0
  }

  /** The document tracked at the request's third step, or when none is, the one primed last before it. */
  function DocumentAtSnapshot(s: State, es: seq<Event>): Option<Document> {
    if es == [] then None
    else
      var before := es[..|es| - 1];
      if es[|es| - 1].Advance? && Steps(before) == 2
      then if TrackedBy(s, before).Some? then TrackedBy(s, before) else PrimedBy(s, before)
      else DocumentAtSnapshot(s, before)
  }

  function PhaseIndex(phase: Phase): nat {
    match phase
    case Priming => 0
    case Probing => 1
    case Snapshotting(_) => 2
    case Converting(_, _) => 3
    case Calling(_, _, _) => 4
    case Reprobing(_, _, _) => 5
    case Responding(_, _, _) => 6
    case Responded(_, _, _) => 7
    case ContentModified => 7
  }

  /** All that a phase has converted so far was converted against one document. */
  predicate ConvertedBy(phase: Phase, document: Option<Document>) {
    match phase
    case Converting(_, snapshot) => snapshot == document
    case Calling(_, snapshot, against) => snapshot == against == document
    case Reprobing(_, snapshot, against) => snapshot == against == document
    case Responding(snapshot, against, _) => snapshot == against == document
    case Responded(against, result, _) => against == result == document
    case _ => true
  }

  /**
   Over every interleaving, a request converts its params and its result against the document tracked
   at its snapshot step or, for an untracked URL, against the snapshot primed last before that.
   */
  lemma {:induction false} ConvertsAgainstSnapshot(s: State, es: seq<Event>)
    requires Initial(s)
    ensures var now := Run(s, es);
            && now.store.tracked == TrackedBy(s, es) && now.store.fallback == PrimedBy(s, es)
            && ConvertedBy(now.phase, DocumentAtSnapshot(s, es))
            && (Steps(es) <= 5 ==> PhaseIndex(now.phase) == Steps(es))
            && (Steps(es) >= 6 ==> PhaseIndex(now.phase) >= 6)
  {
    if es != [] {
      ConvertsAgainstSnapshot(s, es[..|es| - 1]);
    }
  }

  // ------------------------------------------------------------ undisturbed requests are answered

  /** No write or close among these events. */
  predicate Undisturbed(es: seq<Event>) {
    forall i :: 0 <= i < |es| ==> !es[i].Install? && !es[i].Untrack?
  }

  /**
   A request that nothing disturbs is answered once it has taken its seven steps: for a tracked URL
   against its document, for an untracked one against the snapshot primed last before its third step.
   */
  lemma {:induction false} UndisturbedIsAnswered(s: State, es: seq<Event>)
    requires Initial(s) && Undisturbed(es)
    ensures Run(s, es).store.tracked == s.store.tracked
    ensures Run(s, es).phase != ContentModified
    ensures Steps(es) <= 7 ==> PhaseIndex(Run(s, es).phase) == Steps(es)
    ensures Steps(es) >= 7 ==>
              var document := DocumentAtSnapshot(s, es);
              && Run(s, es).phase == Responded(document, document, s.store.tracked)
              && (s.store.tracked.Some? ==> document == s.store.tracked)
    ensures BetweenProbes(Run(s, es).phase) ==> Probed(Run(s, es).phase) == s.store.tracked
  {
    TrackedStays(s, es);
    UndisturbedSteps(s, es);
    ConvertsAgainstSnapshot(s, es);
  }

  lemma {:induction false} TrackedStays(s: State, es: seq<Event>)
    requires Undisturbed(es)
    ensures TrackedBy(s, es) == s.store.tracked
    ensures s.store.tracked.Some? && Steps(es) > 2 ==> DocumentAtSnapshot(s, es) == s.store.tracked
  {
    if es != [] {
      assert forall i :: 0 <= i < |es| - 1 ==> es[i] == es[..|es| - 1][i];
      TrackedStays(s, es[..|es| - 1]);
    }
  }

  lemma {:induction false} UndisturbedSteps(s: State, es: seq<Event>)
    requires Initial(s) && Undisturbed(es)
    ensures var now := Run(s, es);
            && now.store.tracked == s.store.tracked && now.phase != ContentModified
            && PhaseIndex(now.phase) == (if Steps(es) <= 7 then Steps(es) else 7)
            && (BetweenProbes(now.phase) ==> Probed(now.phase) == s.store.tracked)
            && (now.phase.Responding? || now.phase.Responded? ==> now.phase.current == s.store.tracked)
  {
    if es != [] {
      assert forall i :: 0 <= i < |es| - 1 ==> es[i] == es[..|es| - 1][i];
      UndisturbedSteps(s, es[..|es| - 1]);
    }
  }

  /** A request whose server call a save overtakes. */
  function OvertakenBySave(saved: Document): seq<Event> {
    [Advance, Advance, Advance, Advance, Install(saved), Advance, Advance, Advance]
  }

  /** A save repeats its document's version, so a request it overtakes answers for the old text. */
  lemma SaveGoesUnnoticed(s: State, before: Document, saved: Document)
    requires Initial(s) && s.store.tracked == Some(before)
    requires before.version == saved.version && before.text != saved.text
    ensures Run(s, OvertakenBySave(saved)).phase == Responded(Some(before), Some(before), Some(saved))
  {
    var es := OvertakenBySave(saved);
    UntilTheCall(s, before, es);
    RunUnfolds(s, es, 5);
    RunUnfolds(s, es, 6);
    RunUnfolds(s, es, 7);
    RunUnfolds(s, es, 8);
    assert es[..8] == es;
  }

  lemma UntilTheCall(s: State, before: Document, es: seq<Event>)
    requires Initial(s) && s.store.tracked == Some(before)
    requires |es| >= 4 && es[0] == es[1] == es[2] == es[3] == Advance
    ensures Run(s, es[..4]) == s.(phase := Calling(Some(before), Some(before), Some(before)))
  {
    assert Run(s, es[..0]) == s;
    RunUnfolds(s, es, 1);
    assert Run(s, es[..1]) == s.(phase := Probing);
    RunUnfolds(s, es, 2);
    assert Run(s, es[..2]) == s.(phase := Snapshotting(Some(before)));
    RunUnfolds(s, es, 3);
    RunUnfolds(s, es, 4);
  }

  lemma RunUnfolds(s: State, es: seq<Event>, k: nat)
    requires 0 < k <= |es|
    ensures Run(s, es[..k]) == Step(Run(s, es[..k - 1]), es[k - 1])
  {
    assert es[..k][..k - 1] == es[..k - 1];
  }
}
