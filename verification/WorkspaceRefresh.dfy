/**
 Why a refresh may trust its caches: stamps are fresh per write and membership changes are
 delivered as events, so a refresh served by the walk cache and the stamps leaves what walking
 and reading everything again would leave.
 */
module WorkspaceRefresh {
  import opened Wrappers
  import opened StoreModel
  import opened StoreRuns
  import Sync = DocumentSync

  // ------------------------------------------------------------ disk history

  ghost predicate WellStamped(fs: FileSystem) {
    forall url :: url in fs.files && fs.files[url].stamp.Some? ==> fs.files[url].stamp.value < fs.clock
  }

  /** `later` comes after `fs`: every write since then took a stamp `fs` had not issued. */
  ghost predicate Evolves(fs: FileSystem, later: FileSystem) {
    && WellStamped(fs) && WellStamped(later) && fs.clock <= later.clock
    && forall url :: url in later.files && later.files[url].stamp.Some? && later.files[url].stamp.value < fs.clock ==>
         url in fs.files && later.files[url] == fs.files[url]
  }

  lemma EvolvesTransitive(a: FileSystem, b: FileSystem, c: FileSystem)
    requires Evolves(a, b) && Evolves(b, c)
    ensures Evolves(a, c)
  {
  }

  /** Writing a file with the next stamp, or deleting one, evolves the disk. */
  lemma WritesEvolve(fs: FileSystem, url: Url, text: Option<string>, rules: nat)
    requires WellStamped(fs)
    ensures Evolves(fs, fs.(files := fs.files[url := File(text, Some(fs.clock))], clock := fs.clock + 1, rules := rules))
    ensures Evolves(fs, fs.(files := fs.files - {url}, rules := rules))
  {
  }

  // ------------------------------------------------------------ coherence

  /** A stamped workspace document whose stamp is still the file's has the file's text. */
  ghost predicate EntryCoherent(entry: DocumentEntry, url: Url, fs: FileSystem) {
    entry.origin == Workspace && entry.stamp.Some? ==>
      && entry.stamp.value < fs.clock
      && (fs.StampOf(url) == entry.stamp ==> fs.Read(url) == Some(entry.document.text))
  }

  ghost predicate StampCoherent(s: Store, fs: FileSystem) {
    forall url :: url in s.docs ==> EntryCoherent(s.docs[url], url, fs)
  }

  lemma EntryStaysCoherent(entry: DocumentEntry, url: Url, fs: FileSystem, later: FileSystem)
    requires EntryCoherent(entry, url, fs) && Evolves(fs, later)
    ensures EntryCoherent(entry, url, later)
  {
  }

  /** Later writes never make an old stamp current again. */
  lemma StaysCoherent(s: Store, fs: FileSystem, later: FileSystem)
    requires StampCoherent(s, fs) && Evolves(fs, later)
    ensures StampCoherent(s, later)
  {
    forall url | url in s.docs ensures EntryCoherent(s.docs[url], url, later) {
      EntryStaysCoherent(s.docs[url], url, fs, later);
    }
  }

  /** The load's moments lie in order from `fs` to `end`. */
  ghost predicate Timeline(fs: FileSystem, at: nat -> Moment, k: nat, count: nat, end: FileSystem)
    decreases count
  {
    if count == 0 then Evolves(fs, end)
    else Evolves(fs, at(k).probe) && Evolves(at(k).probe, at(k).read) && Timeline(at(k).read, at, k + 1, count - 1, end)
  }

  lemma {:induction false} TimelineEvolves(fs: FileSystem, at: nat -> Moment, k: nat, count: nat, end: FileSystem)
    requires Timeline(fs, at, k, count, end)
    ensures Evolves(fs, end)
    decreases count
  {
    if count > 0 {
      TimelineEvolves(at(k).read, at, k + 1, count - 1, end);
      EvolvesTransitive(fs, at(k).probe, at(k).read);
      EvolvesTransitive(fs, at(k).read, end);
    }
  }

  /** One load keeps coherence even when its file is written between the probe and the read. */
  lemma LoadStaysCoherent(s: Store, w: WalkedFile, m: Moment)
    requires StampCoherent(s, m.probe) && Evolves(m.probe, m.read)
    ensures StampCoherent(Load(s, w, m).0, m.read)
  {
    var t := Load(s, w, m).0;
    StaysCoherent(s, m.probe, m.read);
    forall url | url in t.docs ensures EntryCoherent(t.docs[url], url, m.read) {
      if url == w.url && !Skips(s, w, m) && m.read.Read(url).Some? {
        assert t.docs[url].stamp == m.probe.StampOf(url);
      }
    }
  }

  lemma {:induction false} LoadsStayCoherent(s: Store, fs: FileSystem, loads: seq<WalkedFile>, at: nat -> Moment,
                                             k: nat, end: FileSystem)
    requires StampCoherent(s, fs) && Timeline(fs, at, k, |loads|, end)
    ensures StampCoherent(LoadAll(s, loads, at, k).0, end)
    decreases loads
  {
    if loads == [] {
      StaysCoherent(s, fs, end);
    } else {
      StaysCoherent(s, fs, at(k).probe);
      LoadStaysCoherent(s, loads[0], at(k));
      LoadsStayCoherent(Load(s, loads[0], at(k)).0, at(k).read, loads[1..], at, k + 1, end);
    }
  }

  // ------------------------------------------------------------ what the loads leave

  /** No file is written after the last time its load looked at it. */
  ghost predicate Settled(s: Store, loads: seq<WalkedFile>, at: nat -> Moment, k: nat, end: FileSystem)
    decreases loads
  {
    loads == [] ||
    (var seen := if Skips(s, loads[0], at(k)) then at(k).probe else at(k).read;
     && seen.FileOf(loads[0].url) == end.FileOf(loads[0].url)
     && Settled(Load(s, loads[0], at(k)).0, loads[1..], at, k + 1, end))
  }

  /** The text of a workspace document. */
  function WorkspaceText(s: Store, url: Url): Option<string> {
    if s.IsWorkspace(url) then Some(s.docs[url].document.text) else None
  }

  ghost predicate Loaded(loads: seq<WalkedFile>, url: Url) { exists i :: 0 <= i < |loads| && loads[i].url == url }

  /** A settled load of a readable file leaves the file's text; an unreadable one leaves the entry alone. */
  lemma LoadLeaves(s: Store, w: WalkedFile, m: Moment, end: FileSystem)
    requires StampCoherent(s, m.probe) && !s.IsOpen(w.url)
    requires (if Skips(s, w, m) then m.probe else m.read).FileOf(w.url) == end.FileOf(w.url)
    ensures var (t, ok) := Load(s, w, m);
            && ok == end.Read(w.url).Some?
            && (ok ==> WorkspaceText(t, w.url) == end.Read(w.url))
            && (!ok ==> t == s)
            && forall url :: url != w.url ==> (url in t.docs <==> url in s.docs) &&
                                              (url in s.docs ==> t.docs[url] == s.docs[url])
  {
    assert end.Read(w.url) == (if Skips(s, w, m) then m.probe else m.read).Read(w.url);
    if Skips(s, w, m) {
      assert EntryCoherent(s.docs[w.url], w.url, m.probe);
    }
  }

  lemma {:induction false} LoadsLeave(s: Store, fs: FileSystem, loads: seq<WalkedFile>, at: nat -> Moment,
                                      k: nat, end: FileSystem)
    requires StampCoherent(s, fs) && Timeline(fs, at, k, |loads|, end) && Settled(s, loads, at, k, end)
    requires forall i :: 0 <= i < |loads| ==> !s.IsOpen(loads[i].url)
    ensures var (t, urls) := LoadAll(s, loads, at, k);
            && (forall url :: url in urls <==> Loaded(loads, url) && end.Read(url).Some?)
            && (forall url :: Loaded(loads, url) && end.Read(url).Some? ==> WorkspaceText(t, url) == end.Read(url))
            && (forall url :: !(Loaded(loads, url) && end.Read(url).Some?) ==>
                  (url in t.docs <==> url in s.docs) && (url in s.docs ==> t.docs[url] == s.docs[url]))
    decreases loads
  {
    if loads == [] {
    } else {
      var m := at(k);
      StaysCoherent(s, fs, m.probe);
      LoadLeaves(s, loads[0], m, end);
      LoadStaysCoherent(s, loads[0], m);
      var (t, ok) := Load(s, loads[0], m);
      var rest := loads[1..];
      assert forall i :: 0 <= i < |rest| ==> rest[i] == loads[i + 1];
      LoadsLeave(t, m.read, rest, at, k + 1, end);
      forall url ensures Loaded(loads, url) <==> url == loads[0].url || Loaded(rest, url) {
        LoadedSplits(loads, url);
      }
    }
  }

  lemma LoadedSplits(loads: seq<WalkedFile>, url: Url)
    requires loads != []
    ensures Loaded(loads, url) <==> url == loads[0].url || Loaded(loads[1..], url)
  {
    if Loaded(loads, url) {
      var i :| 0 <= i < |loads| && loads[i].url == url;
      if i > 0 {
        assert loads[1..][i - 1].url == url;
      }
    }
    if Loaded(loads[1..], url) {
      var i :| 0 <= i < |loads| - 1 && loads[1..][i].url == url;
      assert loads[i + 1].url == url;
    }
  }

  // ------------------------------------------------------------ refresh against scratch

  /** The store as it would be with nothing cached: no walk list and no workspace documents. */
  function Forget(s: Store): Store { Retain(s, KeepOpen()).(walk := CLEARED) }

  /** A disk that does not move. */
  function Still(fs: FileSystem): nat -> Moment { k => Moment(fs, fs) }

  /** Walking and reading everything again. */
  function Scratch(c: Config, s: Store, fs: FileSystem): (Store, Option<set<Url>>) {
    Refresh(c, Forget(s), fs, Still(fs))
  }

  predicate SameMembers(fs: FileSystem, later: FileSystem) {
    fs.files.Keys == later.files.Keys && fs.rules == later.rules
  }

  function WalkOf(c: Config, s: Store, fs: FileSystem): Option<seq<WalkedFile>> {
    c.walk(fs.files.Keys, fs.rules, s.roots.Values)
  }

  /** A list that may be served is what a walk would find now. */
  predicate WalkCoherent(c: Config, s: Store, fs: FileSystem) {
    s.walk.GetValid().Some? ==> s.walk.GetValid() == WalkOf(c, s, fs)
  }

  lemma {:induction false} PickByOpenness(s: Store, t: Store, walked: seq<WalkedFile>, open: bool)
    requires forall url :: s.IsOpen(url) == t.IsOpen(url)
    ensures Pick(s, walked, open) == Pick(t, walked, open)
  {
    if walked != [] {
      PickByOpenness(s, t, walked[1..], open);
    }
  }

  lemma {:induction false} StillIsSettled(s: Store, loads: seq<WalkedFile>, k: nat, fs: FileSystem)
    requires WellStamped(fs)
    ensures Timeline(fs, Still(fs), k, |loads|, fs) && Settled(s, loads, Still(fs), k, fs)
    decreases loads
  {
    if loads != [] {
      StillIsSettled(Load(s, loads[0], Still(fs)(k)).0, loads[1..], k + 1, fs);
    }
  }

  /** The walked URLs. */
  function WalkedUrls(walked: seq<WalkedFile>): set<Url> { SetOf(UrlsOf(walked)) }

  /** A walked file whose document is not open, when it can be read at the end. */
  predicate Loadable(s: Store, walked: seq<WalkedFile>, end: FileSystem, url: Url) {
    url in WalkedUrls(walked) && !s.IsOpen(url) && end.Read(url).Some?
  }

  /**
   What a refresh of walked files leaves, in terms of the disk at its end alone: it reports the walked
   URLs that are open or readable; inside the roots exactly the readable ones that are not open are
   workspace documents, with the disk's texts; outside only those are loaded and all else stays; open
   documents are as they were.
   */
  ghost predicate LeavesDisk(c: Config, s: Store, walked: seq<WalkedFile>, end: FileSystem, t: Store, all: set<Url>) {
    && (forall url :: url in all <==> url in WalkedUrls(walked) && (s.IsOpen(url) || end.Read(url).Some?))
    && (forall url :: InRoots(c, url, s.roots.Values) ==>
          WorkspaceText(t, url) == if Loadable(s, walked, end, url) then end.Read(url) else None)
    && (forall url :: !InRoots(c, url, s.roots.Values) ==>
          if Loadable(s, walked, end, url) then WorkspaceText(t, url) == end.Read(url)
          else Stays(s, t, url))
    && KeepsOpen(s, t)
    && OpensNothing(s, t)
  }

  /** Picking takes exactly the walked URLs whose documents are open, or are not. */
  lemma {:induction false} PickExactly(s: Store, walked: seq<WalkedFile>, open: bool)
    ensures forall url :: url in WalkedUrls(Pick(s, walked, open)) <==> url in WalkedUrls(walked) && s.IsOpen(url) == open
  {
    if walked != [] {
      PickExactly(s, walked[1..], open);
      UrlsSplit(walked);
      if s.IsOpen(walked[0].url) == open {
        UrlsSplit([walked[0]] + Pick(s, walked[1..], open));
        assert ([walked[0]] + Pick(s, walked[1..], open))[1..] == Pick(s, walked[1..], open);
      }
    }
  }

  lemma UrlsSplit(walked: seq<WalkedFile>)
    requires walked != []
    ensures WalkedUrls(walked) == {walked[0].url} + WalkedUrls(walked[1..])
  {
    forall url ensures url in WalkedUrls(walked) <==> url == walked[0].url || url in WalkedUrls(walked[1..]) {
      LoadedIsUrlOf(walked, url);
      LoadedIsUrlOf(walked[1..], url);
      LoadedSplits(walked, url);
    }
  }

  lemma LoadedIsUrlOf(loads: seq<WalkedFile>, url: Url)
    ensures Loaded(loads, url) <==> url in SetOf(UrlsOf(loads))
  {
    if Loaded(loads, url) {
      var i :| 0 <= i < |loads| && loads[i].url == url;
      assert UrlsOf(loads)[i] == url;
    }
  }

  /** What `t` tracks under the URL is what `s` does. */
  ghost predicate Stays(s: Store, t: Store, url: Url) {
    (url in t.docs <==> url in s.docs) && (url in s.docs ==> t.docs[url] == s.docs[url])
  }

  lemma RefreshLeaves(c: Config, s: Store, fs: FileSystem, at: nat -> Moment, end: FileSystem)
    requires s.DiagnosticsOn() && s.roots != map[] && Walked(c, s, fs).Some? && StampCoherent(s, fs)
    requires var loads := Pick(s, Walked(c, s, fs).value, false);
             Timeline(fs, at, 0, |loads|, end) && Settled(AfterWalk(c, s, fs), loads, at, 0, end)
    ensures var (t, all) := Refresh(c, s, fs, at);
            all.Some? && LeavesDisk(c, s, Walked(c, s, fs).value, end, t, all.value)
    ensures StampCoherent(Refresh(c, s, fs, at).0, end)
  {
    var walked, t := Walked(c, s, fs).value, AfterWalk(c, s, fs);
    PickByOpenness(s, t, walked, false);
    PickByOpenness(s, t, walked, true);
    assert StampCoherent(t, fs);
    LoadsOfRefresh(t, fs, walked, at, end);
    var (loaded, urls) := LoadAll(t, Pick(s, walked, false), at, 0);
    PickExactly(t, walked, true);
    RetainedAfterLoads(c, t, loaded, walked, Pick(s, walked, true), urls, end);
    var all := SetOf(UrlsOf(Pick(s, walked, true)) + urls);
    LeavesByDocs(c, t, s, walked, end, Retain(loaded, KeepAfterRefresh(c, s.roots.Values, all)), all);
  }

  lemma LoadsOfRefresh(s: Store, fs: FileSystem, walked: seq<WalkedFile>, at: nat -> Moment, end: FileSystem)
    requires StampCoherent(s, fs)
    requires var loads := Pick(s, walked, false);
             Timeline(fs, at, 0, |loads|, end) && Settled(s, loads, at, 0, end)
    ensures var (t, urls) := LoadAll(s, Pick(s, walked, false), at, 0);
            && (forall url :: url in urls <==> Loadable(s, walked, end, url))
            && (forall url :: url in urls ==> WorkspaceText(t, url) == end.Read(url))
            && (forall url :: url !in urls ==> Stays(s, t, url))
            && KeepsOpen(s, t) && OpensNothing(s, t)
            && StampCoherent(t, end)
  {
    var loads := Pick(s, walked, false);
    PickedBy(s, walked, false);
    PickExactly(s, walked, false);
    LoadsLeave(s, fs, loads, at, 0, end);
    LoadsStayCoherent(s, fs, loads, at, 0, end);
    LoadAllKeepsOpen(s, loads, at, 0);
    forall url ensures Loaded(loads, url) <==> url in WalkedUrls(loads) {
      LoadedIsUrlOf(loads, url);
    }
  }

  lemma RetainedAfterLoads(c: Config, s: Store, loaded: Store, walked: seq<WalkedFile>, open: seq<WalkedFile>,
                           urls: seq<Url>, end: FileSystem)
    requires forall url :: url in urls <==> Loadable(s, walked, end, url)
    requires forall url :: url in urls ==> WorkspaceText(loaded, url) == end.Read(url)
    requires forall url :: url !in urls ==> Stays(s, loaded, url)
    requires forall url :: url in WalkedUrls(open) <==> url in WalkedUrls(walked) && s.IsOpen(url)
    requires KeepsOpen(s, loaded) && OpensNothing(s, loaded)
    ensures var all := SetOf(UrlsOf(open) + urls);
            LeavesDisk(c, s, walked, end, Retain(loaded, KeepAfterRefresh(c, s.roots.Values, all)), all)
  {
    var all := SetOf(UrlsOf(open) + urls);
    assert forall url :: url in all <==> url in WalkedUrls(open) || url in urls;
    var t := Retain(loaded, KeepAfterRefresh(c, s.roots.Values, all));
    RetainedStays(c, loaded, s.roots.Values, all);
    forall url | InRoots(c, url, s.roots.Values)
      ensures WorkspaceText(t, url) == if Loadable(s, walked, end, url) then end.Read(url) else None
    {
      if url in all && url !in urls {
        assert loaded.IsOpen(url);
      }
    }
  }

  /** Retaining drops the workspace documents in the roots that were not reported and leaves the rest. */
  lemma RetainedStays(c: Config, s: Store, roots: set<Path>, all: set<Url>)
    ensures var t := Retain(s, KeepAfterRefresh(c, roots, all));
            && (forall url :: InRoots(c, url, roots) ==>
                  WorkspaceText(t, url) == if url in all then WorkspaceText(s, url) else None)
            && (forall url :: !InRoots(c, url, roots) ==> Stays(s, t, url))
            && KeepsOpen(s, t) && OpensNothing(s, t)
  {
  }

  /** Only the documents and the roots of the store a refresh starts from matter. */
  lemma LeavesByDocs(c: Config, s: Store, same: Store, walked: seq<WalkedFile>, end: FileSystem, t: Store, all: set<Url>)
    requires LeavesDisk(c, s, walked, end, t, all) && s.docs == same.docs && s.roots == same.roots
    ensures LeavesDisk(c, same, walked, end, t, all)
  {
    assert forall url :: s.IsOpen(url) == same.IsOpen(url);
    assert forall url :: Loadable(s, walked, end, url) == Loadable(same, walked, end, url);
    assert forall url :: Stays(s, t, url) == Stays(same, t, url);
  }

  /**
   A refresh served by the walk cache and the stamps reports the same URLs, leaves the same
   workspace texts inside the roots and the same open documents as starting from scratch on
   the disk at its end, wherever between their probe and their read the loaded files were written.
   */
  lemma RefreshRefinesScratch(c: Config, s: Store, fs: FileSystem, at: nat -> Moment, end: FileSystem)
    requires s.DiagnosticsOn() && s.roots != map[]
    requires StampCoherent(s, fs) && (s.registered ==> WalkCoherent(c, s, fs))
    requires SameMembers(fs, end) && WellStamped(end)
    requires Walked(c, s, fs).Some? ==>
               var loads := Pick(s, Walked(c, s, fs).value, false);
               Timeline(fs, at, 0, |loads|, end) && Settled(AfterWalk(c, s, fs), loads, at, 0, end)
    ensures var (warm, urls) := Refresh(c, s, fs, at);
            var (cold, again) := Scratch(c, s, end);
            && urls == again
            && (urls.Some? ==> SameTexts(c, s.roots.Values, warm, cold))
  {
    var walked, cold := Walked(c, s, fs), Forget(s);
    assert walked == WalkOf(c, s, fs) == WalkOf(c, s, end) == Walked(c, cold, end);
    if walked.Some? {
      RefreshLeaves(c, s, fs, at, end);
      PickByOpenness(s, cold, walked.value, true);
      PickByOpenness(s, cold, walked.value, false);
      var loads := Pick(s, walked.value, false);
      StillIsSettled(AfterWalk(c, cold, end), loads, 0, end);
      assert StampCoherent(cold, end);
      RefreshLeaves(c, cold, end, Still(end), end);
      LeavesAlike(c, s, cold, walked.value, end, Refresh(c, s, fs, at).0, Refresh(c, cold, end, Still(end)).0,
                  Refresh(c, s, fs, at).1.value, Refresh(c, cold, end, Still(end)).1.value);
    }
  }

  /** Two refreshes that leave one disk, from stores with the same open documents, leave the same. */
  lemma LeavesAlike(c: Config, s: Store, cold: Store, walked: seq<WalkedFile>, end: FileSystem,
                    t: Store, u: Store, all: set<Url>, again: set<Url>)
    requires s.roots == cold.roots && KeepsOpen(s, cold) && OpensNothing(s, cold)
    requires LeavesDisk(c, s, walked, end, t, all) && LeavesDisk(c, cold, walked, end, u, again)
    ensures all == again && SameTexts(c, s.roots.Values, t, u)
  {
  }

  /** The two stores agree on workspace texts under the roots and on every open document. */
  ghost predicate SameTexts(c: Config, roots: set<Path>, s: Store, t: Store) {
    && (forall url :: InRoots(c, url, roots) ==> WorkspaceText(s, url) == WorkspaceText(t, url))
    && (forall url :: s.IsOpen(url) == t.IsOpen(url))
    && (forall url :: s.IsOpen(url) ==> s.docs[url].document == t.docs[url].document)
  }

  // ------------------------------------------------------------ runs

  /**
   The store, the disk, whether a change of the disk's members has not been delivered since the
   walk list was last fresh, and a walk whose list is not stored yet.
   */
  datatype World = World(store: Store, fs: FileSystem, undelivered: bool, pending: Option<Walking>)

  /** The disk and the roots a walk under way was given. */
  datatype Walking = Walking(from: FileSystem, roots: set<Path>) {
    function List(c: Config): Option<seq<WalkedFile>> { c.walk(from.files.Keys, from.rules, roots) }
  }

  /**
   The disk moves, a handler runs, or a refresh that is still at its walk takes one of the two
   steps between which other handlers run: the walk, and the storing of its list.
   */
  datatype Action = Disk(later: FileSystem) | Handle(event: Event, after: FileSystem) | StartWalk | StoreWalk

  predicate DeliversMembership(c: Config, e: Event) {
    e.FileEvents? && exists i :: 0 <= i < |e.events| && ChangesMembership(c, e.events[i])
  }

  /** A refresh that walks and keeps the list: the client's watchers are registered and no list is servable. */
  predicate StoresFreshWalk(c: Config, s: Store, e: Event) {
    && e.Refreshed? && s.DiagnosticsOn() && s.roots != map[]
    && s.registered && s.walk.GetValid().None? && WalkOf(c, s, e.walkedOn).Some?
  }

  function Act(c: Config, w: World, a: Action): World {
    match a
    case Disk(later) => w.(fs := later, undelivered := w.undelivered || !SameMembers(w.fs, later))
    case Handle(e, after) =>
      w.(store := Step(c, w.store, e), fs := after,
         undelivered := || (w.undelivered && !DeliversMembership(c, e) && !StoresFreshWalk(c, w.store, e))
                        || !SameMembers(w.fs, after))
    case StartWalk => w.(pending := Some(Walking(w.fs, w.store.roots.Values)))
    case StoreWalk =>
      if w.pending.None? || w.pending.value.List(c).None? then w.(pending := None)
      else w.(store := w.store.(walk := WalkList(w.pending.value.List(c), false)), undelivered := false,
              pending := None)
  }

  function Acts(c: Config, w: World, actions: seq<Action>): World {
    if actions == [] then w else Act(c, Acts(c, w, actions[..|actions| - 1]), actions[|actions| - 1])
  }

  /** The loads a refresh would make now. */
  function LoadsNow(c: Config, s: Store, fs: FileSystem): seq<WalkedFile> {
    if s.DiagnosticsOn() && s.roots != map[] && Walked(c, s, fs).Some? then Pick(s, Walked(c, s, fs).value, false) else []
  }

  /**
   The disk only moves forward; handlers read the disk as it is, and it moves on during a refresh
   only along its timeline; saves keep their stamps honest; members and roots stand between a walk and
   the storing of its list.
   */
  ghost predicate MayAct(c: Config, w: World, a: Action) {
    match a
    case Disk(later) => Evolves(w.fs, later)
    case Handle(e, after) =>
      if e.Refreshed? then e.walkedOn == w.fs && Timeline(w.fs, e.at, 0, |LoadsNow(c, w.store, w.fs)|, after)
      else
        && after == w.fs
        && (e.Saved? ==> SaveIsHonest(c, w.store, e.savedOn, e.savedUrl, e.sent, w.fs))
    case StartWalk => w.store.registered && w.store.walk.GetValid().None?
    case StoreWalk =>
      w.pending.Some? ==>
        SameMembers(w.pending.value.from, w.fs) && w.pending.value.roots == w.store.roots.Values
  }

  ghost predicate MayActAll(c: Config, w: World, actions: seq<Action>) {
    forall k :: 0 <= k < |actions| ==> MayAct(c, Acts(c, w, actions[..k]), actions[k])
  }

  ghost predicate WorldInv(c: Config, w: World) {
    && WellStamped(w.fs)
    && StampCoherent(w.store, w.fs)
    && (w.undelivered || WalkCoherent(c, w.store, w.fs))
  }

  /** Changing one entry to a coherent one, or dropping it, keeps coherence. */
  lemma OneEntryStaysCoherent(s: Store, t: Store, url: Url, fs: FileSystem)
    requires StampCoherent(s, fs)
    requires forall u :: u in t.docs && u != url ==> u in s.docs && t.docs[u] == s.docs[u]
    requires url in t.docs ==> EntryCoherent(t.docs[url], url, fs)
    ensures StampCoherent(t, fs)
  {
  }

  lemma FileEventStaysCoherent(c: Config, s: Store, e: FileEvent, fs: FileSystem)
    requires StampCoherent(s, fs)
    ensures var t := OnFileEvent(c, s, e);
            && StampCoherent(t, fs) && t.roots == s.roots
            && t.walk == if ChangesMembership(c, e) then s.walk.Invalidated() else s.walk
  {
    NoticedOnlyWalk(c, s, e);
    FileEventActs(c, s, e);
  }

  lemma {:induction false} FileEventsStayCoherent(c: Config, s: Store, es: seq<FileEvent>, fs: FileSystem)
    requires StampCoherent(s, fs)
    ensures var t := OnFileEvents(c, s, es);
            && StampCoherent(t, fs) && t.roots == s.roots
            && (t.walk == s.walk || t.walk.dirty)
            && ((exists i :: 0 <= i < |es| && ChangesMembership(c, es[i])) || s.walk.dirty ==> t.walk.dirty)
    decreases es
  {
    if es != [] {
      var t := OnFileEvent(c, s, es[0]);
      FileEventStaysCoherent(c, s, es[0], fs);
      FileEventsStayCoherent(c, t, es[1..], fs);
      if exists i :: 0 <= i < |es| && ChangesMembership(c, es[i]) {
        var i :| 0 <= i < |es| && ChangesMembership(c, es[i]);
        if i > 0 {
          assert es[1..][i - 1] == es[i];
        }
      }
    }
  }

  lemma {:induction false} FilesGoneStayCoherent(c: Config, s: Store, urls: seq<Option<Url>>, fs: FileSystem)
    requires StampCoherent(s, fs)
    ensures var t := OnFilesGone(s, urls);
            StampCoherent(t, fs) && t.roots == s.roots && t.walk == s.walk
    decreases urls
  {
    if urls != [] {
      FilesGoneStayCoherent(c, RemoveWorkspace(s, urls[0]), urls[1..], fs);
    }
  }

  lemma {:induction false} LoadsKeepWalk(s: Store, loads: seq<WalkedFile>, at: nat -> Moment, k: nat)
    ensures var t := LoadAll(s, loads, at, k).0;
            t.walk == s.walk && t.roots == s.roots
    decreases loads
  {
    if loads != [] {
      LoadsKeepWalk(Load(s, loads[0], at(k)).0, loads[1..], at, k + 1);
    }
  }

  lemma RefreshKeepsWorldInv(c: Config, w: World, at: nat -> Moment, after: FileSystem)
    requires WorldInv(c, w) && MayAct(c, w, Handle(Refreshed(w.fs, at), after))
    ensures WorldInv(c, Act(c, w, Handle(Refreshed(w.fs, at), after)))
  {
    var s, fs := w.store, w.fs;
    TimelineEvolves(fs, at, 0, |LoadsNow(c, s, fs)|, after);
    if s.DiagnosticsOn() && s.roots != map[] && Walked(c, s, fs).Some? {
      var walked, t := Walked(c, s, fs).value, AfterWalk(c, s, fs);
      PickByOpenness(s, t, walked, false);
      var loads := Pick(s, walked, false);
      assert StampCoherent(t, fs);
      LoadsStayCoherent(t, fs, loads, at, 0, after);
      LoadsKeepWalk(t, loads, at, 0);
    } else {
      StaysCoherent(s, fs, after);
    }
  }

  lemma CloseStaysCoherent(c: Config, s: Store, on: FileSystem, url: Url, fs: FileSystem)
    requires StampCoherent(s, fs)
    ensures var t := OnClose(c, s, on, url);
            StampCoherent(t, fs) && t.roots == s.roots && t.walk == s.walk
  {
    OneEntryStaysCoherent(s, OnClose(c, s, on, url), url, fs);
  }

  /** A change touches one document and leaves it open. */
  lemma ChangeOpens(c: Config, s: Store, on: FileSystem, url: Url, version: int, changes: seq<Sync.ContentChange>)
    ensures var t := OnChange(c, s, on, url, version, changes);
            && t.roots == s.roots && t.walk == s.walk
            && (if s.Tracks(url) then t.IsOpen(url) && t.docs == s.docs[url := t.docs[url]] else t == s)
  {
  }

  lemma ChangeStaysCoherent(c: Config, s: Store, e: Event, fs: FileSystem)
    requires StampCoherent(s, fs) && e.DidChange?
    ensures var t := Step(c, s, e);
            StampCoherent(t, fs) && t.roots == s.roots && t.walk == s.walk
  {
    ChangeOpens(c, s, e.changedOn, e.changedUrl, e.changedVersion, e.changes);
    OneEntryStaysCoherent(s, Step(c, s, e), e.changedUrl, fs);
  }

  /**
   A save leaves its document with a stamp that vouches for its text: it has none, it is no longer
   the file's, or the text installed is the file's. Documents that are not the workspace's have no say.
   */
  predicate SaveIsHonest(c: Config, s: Store, on: FileSystem, url: Url, sent: Option<string>, fs: FileSystem) {
    s.IsWorkspace(url) && SavedText(c, on, url, sent).Some? ==>
      || s.docs[url].stamp.None?
      || s.docs[url].stamp != fs.StampOf(url)
      || SavedText(c, on, url, sent) == fs.Read(url)
  }

  /** The stamps vouch for their texts after a save exactly when the save is honest. */
  lemma SaveStaysCoherentIff(c: Config, s: Store, on: FileSystem, url: Url, sent: Option<string>, fs: FileSystem)
    requires StampCoherent(s, fs)
    ensures StampCoherent(OnSave(c, s, on, url, sent), fs) <==> SaveIsHonest(c, s, on, url, sent, fs)
    ensures OnSave(c, s, on, url, sent).roots == s.roots && OnSave(c, s, on, url, sent).walk == s.walk
  {
    var t := OnSave(c, s, on, url, sent);
    if s.IsWorkspace(url) && SavedText(c, on, url, sent).Some? {
      assert t.docs[url] == s.docs[url].(document := s.docs[url].document.(text := SavedText(c, on, url, sent).value));
      assert EntryCoherent(s.docs[url], url, fs);
      assert EntryCoherent(t.docs[url], url, fs) <==> SaveIsHonest(c, s, on, url, sent, fs);
    }
    if SaveIsHonest(c, s, on, url, sent, fs) {
      OneEntryStaysCoherent(s, t, url, fs);
    }
  }

  /** A save without text is honest whenever the file its URL's path names is the URL's own, or has the same text. */
  lemma DiskSavesAreHonest(c: Config, s: Store, url: Url, fs: FileSystem)
    requires c.ReadNamed(fs, url) == fs.Read(url)
    ensures SaveIsHonest(c, s, fs, url, None, fs)
  {
  }

  lemma SettingsStayCoherent(c: Config, s: Store, e: Event, fs: FileSystem)
    requires StampCoherent(s, fs) && (e.FoldersChanged? || e.Switched?)
    ensures var t := Step(c, s, e);
            StampCoherent(t, fs) && (t.walk.GetValid().None? || (t.walk == s.walk && t.roots == s.roots))
  {
  }

  lemma ActKeepsWorldInv(c: Config, w: World, a: Action)
    requires WorldInv(c, w) && MayAct(c, w, a)
    ensures WorldInv(c, Act(c, w, a))
  {
    match a
    case StartWalk =>
    case StoreWalk =>
    case Disk(later) => StaysCoherent(w.store, w.fs, later);
    case Handle(e, after) =>
      match e
      case Refreshed(fs, at) => RefreshKeepsWorldInv(c, w, at, after);
      case FileEvents(es) => FileEventsStayCoherent(c, w.store, es, w.fs);
      case FilesGone(urls) => FilesGoneStayCoherent(c, w.store, urls, w.fs);
      case FoldersChanged(_, _) => SettingsStayCoherent(c, w.store, e, w.fs);
      case Switched(_) => SettingsStayCoherent(c, w.store, e, w.fs);
      case Registered =>
      case TokensStored(_, _) =>
      case Opened(url, _, _, _) => OneEntryStaysCoherent(w.store, Step(c, w.store, e), url, w.fs);
      case Closed(url, on) => CloseStaysCoherent(c, w.store, on, url, w.fs);
      case DidChange(_, _, _, _) => ChangeStaysCoherent(c, w.store, e, w.fs);
      case Saved(url, on, sent) => SaveStaysCoherentIff(c, w.store, on, url, sent, w.fs);
  }

  lemma {:induction false} ActsKeepWorldInv(c: Config, w: World, actions: seq<Action>)
    requires WorldInv(c, w) && MayActAll(c, w, actions)
    ensures WorldInv(c, Acts(c, w, actions))
  {
    if actions != [] {
      var init := actions[..|actions| - 1];
      forall k | 0 <= k < |init| ensures MayAct(c, Acts(c, w, init[..k]), init[k]) {
        assert init[..k] == actions[..k];
      }
      ActsKeepWorldInv(c, w, init);
      ActKeepsWorldInv(c, Acts(c, w, init), actions[|actions| - 1]);
    }
  }

  /**
   At any point of any run, a refresh during which the members stand and no file is written after
   its load looked at it refines a refresh from scratch. Only a list that is served needs every
   membership change delivered: clients without watchers, and lists that are stale, walk again.
   */
  lemma EveryRefreshRefinesScratch(c: Config, w: World, actions: seq<Action>, at: nat -> Moment, end: FileSystem)
    requires WorldInv(c, w) && MayActAll(c, w, actions)
    requires var now := Acts(c, w, actions);
             && (now.store.registered && now.store.walk.GetValid().Some? ==> !now.undelivered)
             && now.store.DiagnosticsOn() && now.store.roots != map[]
             && MayAct(c, now, Handle(Refreshed(now.fs, at), end))
             && SameMembers(now.fs, end)
             && (Walked(c, now.store, now.fs).Some? ==>
                   Settled(AfterWalk(c, now.store, now.fs), LoadsNow(c, now.store, now.fs), at, 0, end))
    ensures var now := Acts(c, w, actions);
            var (warm, urls) := Refresh(c, now.store, now.fs, at);
            var (cold, again) := Scratch(c, now.store, end);
            && urls == again
            && (urls.Some? ==> SameTexts(c, now.store.roots.Values, warm, cold))
  {
    ActsKeepWorldInv(c, w, actions);
    var now := Acts(c, w, actions);
    TimelineEvolves(now.fs, at, 0, |LoadsNow(c, now.store, now.fs)|, end);
    RefreshRefinesScratch(c, now.store, now.fs, at, end);
  }

  // ------------------------------------------------------------ a walk that is overtaken

  lemma {:induction false} FileEventsKeepRoots(c: Config, s: Store, es: seq<FileEvent>)
    ensures OnFileEvents(c, s, es).roots == s.roots && OnFileEvents(c, s, es).registered == s.registered
    decreases es
  {
    if es != [] {
      NoticedOnlyWalk(c, s, es[0]);
      FileEventActs(c, s, es[0]);
      FileEventsKeepRoots(c, OnFileEvent(c, s, es[0]), es[1..]);
    }
  }

  lemma {:induction false} FilesGoneKeepRoots(s: Store, urls: seq<Option<Url>>)
    ensures OnFilesGone(s, urls).roots == s.roots && OnFilesGone(s, urls).registered == s.registered
    decreases urls
  {
    if urls != [] {
      FilesGoneKeepRoots(RemoveWorkspace(s, urls[0]), urls[1..]);
    }
  }

  lemma {:induction false} LoadsKeepRegistered(s: Store, loads: seq<WalkedFile>, at: nat -> Moment, k: nat)
    ensures LoadAll(s, loads, at, k).0.registered == s.registered
    decreases loads
  {
    if loads != [] {
      LoadsKeepRegistered(Load(s, loads[0], at(k)).0, loads[1..], at, k + 1);
    }
  }

  lemma RefreshKeepsRoots(c: Config, s: Store, fs: FileSystem, at: nat -> Moment)
    ensures Refresh(c, s, fs, at).0.roots == s.roots && Refresh(c, s, fs, at).0.registered == s.registered
  {
    if s.DiagnosticsOn() && s.roots != map[] && Walked(c, s, fs).Some? {
      var t := AfterWalk(c, s, fs);
      LoadsKeepWalk(t, Pick(t, Walked(c, s, fs).value, false), at, 0);
      LoadsKeepRegistered(t, Pick(t, Walked(c, s, fs).value, false), at, 0);
    }
  }

  /** The same roots and registration. */
  predicate SameSettings(s: Store, t: Store) { s.roots == t.roots && s.registered == t.registered }

  lemma EditorKeepsRoots(c: Config, s: Store, fs: FileSystem, url: Url, text: string, version: int, language: string)
    ensures SameSettings(OnOpen(s, url, text, version, language), s)
    ensures SameSettings(OnClose(c, s, fs, url), s)
  {
  }

  lemma ChangesKeepRoots(c: Config, s: Store, fs: FileSystem, url: Url, version: int,
                         changes: seq<Sync.ContentChange>, sent: Option<string>)
    ensures SameSettings(OnChange(c, s, fs, url, version, changes), s)
    ensures SameSettings(OnSave(c, s, fs, url, sent), s)
  {
  }

  lemma FoldersMoveRoots(c: Config, s: Store, removed: set<Url>, added: seq<(Url, Option<Path>)>)
    ensures OnFolders(c, s, removed, added).roots == AddRoots(s.roots - removed, added)
    ensures OnFolders(c, s, removed, added).registered == s.registered
  {
  }

  /** The roots after a handler: only a folder change moves them. */
  function RootsOn(roots: map<Url, Path>, e: Event): map<Url, Path> {
    if e.FoldersChanged? then AddRoots(roots - e.removed, e.added) else roots
  }

  lemma StepMovesRoots(c: Config, s: Store, e: Event)
    ensures Step(c, s, e).roots == RootsOn(s.roots, e)
    ensures s.registered ==> Step(c, s, e).registered
  {
    match e
    case FileEvents(es) => FileEventsKeepRoots(c, s, es);
    case FilesGone(urls) => FilesGoneKeepRoots(s, urls);
    case Refreshed(fs, at) => RefreshKeepsRoots(c, s, fs, at);
    case FoldersChanged(removed, added) => FoldersMoveRoots(c, s, removed, added);
    case Switched(_) =>
    case Registered =>
    case TokensStored(_, _) =>
    case Opened(url, text, version, language) => EditorKeepsRoots(c, s, FileSystem(map[], 0, 0), url, text, version, language);
    case Closed(url, fs) => EditorKeepsRoots(c, s, fs, url, "", 0, "");
    case DidChange(url, fs, version, changes) => ChangesKeepRoots(c, s, fs, url, version, changes, None);
    case Saved(url, fs, sent) => ChangesKeepRoots(c, s, fs, url, 0, [], sent);
  }

  /** No action of these starts a walk or stores its list. */
  predicate NoWalkSteps(mid: seq<Action>) { forall i :: 0 <= i < |mid| ==> !mid[i].StartWalk? && !mid[i].StoreWalk? }

  /** The disk after some actions, read off them alone. */
  function DiskAfter(fs: FileSystem, mid: seq<Action>): FileSystem {
    if mid == [] then fs
    else
      match mid[|mid| - 1]
      case Disk(later) => later
      case Handle(_, after) => after
      case _ => DiskAfter(fs, mid[..|mid| - 1])
  }

  /** The roots after them. */
  function RootsAfter(roots: map<Url, Path>, mid: seq<Action>): map<Url, Path> {
    if mid == [] then roots
    else
      var before := RootsAfter(roots, mid[..|mid| - 1]);
      match mid[|mid| - 1]
      case Handle(e, _) => RootsOn(before, e)
      case _ => before
  }

  lemma {:induction false} MidActs(c: Config, w: World, mid: seq<Action>)
    requires NoWalkSteps(mid)
    ensures var t := Acts(c, w, mid);
            && t.fs == DiskAfter(w.fs, mid) && t.store.roots == RootsAfter(w.store.roots, mid)
            && t.pending == w.pending && (w.store.registered ==> t.store.registered)
  {
    if mid != [] {
      var init, last := mid[..|mid| - 1], mid[|mid| - 1];
      MidActs(c, w, init);
      if last.Handle? {
        StepMovesRoots(c, Acts(c, w, init).store, last.event);
      }
    }
  }

  /** A walk, what runs while it is under way, and the storing of its list. */
  function Overtaken(mid: seq<Action>): seq<Action> { [StartWalk] + mid + [StoreWalk] }

  lemma {:induction false} ActsAfter(c: Config, w: World, a: Action, mid: seq<Action>)
    ensures Acts(c, w, [a] + mid) == Acts(c, Act(c, w, a), mid)
  {
    if mid == [] {
      assert [a] + mid == [a] && [a][..0] == [];
    } else {
      assert ([a] + mid)[..|mid|] == [a] + mid[..|mid| - 1];
      ActsAfter(c, w, a, mid[..|mid| - 1]);
    }
  }

  lemma OvertakenActs(c: Config, w: World, mid: seq<Action>)
    ensures Acts(c, w, Overtaken(mid)) == Act(c, Acts(c, Act(c, w, StartWalk), mid), StoreWalk)
  {
    assert Overtaken(mid)[..|mid| + 1] == [StartWalk] + mid;
    ActsAfter(c, w, StartWalk, mid);
  }

  /**
   Whatever runs between a walk and the storing of its list, invalidations and clears included, the
   list then served is the one the walk was started for, with nothing left to deliver.
   */
  lemma StartedListIsServed(c: Config, w: World, mid: seq<Action>)
    requires NoWalkSteps(mid) && WalkOf(c, w.store, w.fs).Some?
    ensures var t := Acts(c, w, Overtaken(mid));
            && t.store.walk.GetValid() == WalkOf(c, w.store, w.fs) && !t.undelivered
            && t.fs == DiskAfter(w.fs, mid) && t.store.roots == RootsAfter(w.store.roots, mid)
            && (w.store.registered ==> t.store.registered)
  {
    OvertakenActs(c, w, mid);
    MidActs(c, Act(c, w, StartWalk), mid);
  }

  /** The list stored at the end of an overtaken walk is what a walk would find then. */
  ghost predicate RightFor(c: Config, w: World, mid: seq<Action>) {
    WalkOf(c, w.store, w.fs).Some? ==>
      var t := Acts(c, w, Overtaken(mid));
      WalkCoherent(c, t.store, t.fs)
  }

  lemma RightForIff(c: Config, w: World, mid: seq<Action>)
    requires NoWalkSteps(mid) && WalkOf(c, w.store, w.fs).Some?
    ensures RightFor(c, w, mid) <==>
            var later := DiskAfter(w.fs, mid);
            WalkOf(c, w.store, w.fs) ==
            c.walk(later.files.Keys, later.rules, RootsAfter(w.store.roots, mid).Values)
  {
    StartedListIsServed(c, w, mid);
  }

  /** A walk that succeeds for one set of files, rules and roots only. */
  function OnlyFor(keys: set<Url>, rules: nat, roots: set<Path>): Walk {
    (k, r, p) => if k == keys && r == rules && p == roots then Some([]) else None
  }

  /**
   The stored list is right, whatever the walk finds, if and only if at the storing the members of the
   disk, the ignore rules and the roots are those the walk was started for. Events do not matter: a
   membership change or a folder change during the walk is lost, delivered or not.
   */
  lemma StoredListRightIff(c: Config, w: World, mid: seq<Action>)
    requires NoWalkSteps(mid)
    ensures (forall walk: Walk :: RightFor(c.(walk := walk), w, mid)) <==>
            && SameMembers(w.fs, DiskAfter(w.fs, mid))
            && w.store.roots.Values == RootsAfter(w.store.roots, mid).Values
  {
    if SameMembers(w.fs, DiskAfter(w.fs, mid)) && w.store.roots.Values == RootsAfter(w.store.roots, mid).Values {
      forall walk: Walk ensures RightFor(c.(walk := walk), w, mid) {
        if WalkOf(c.(walk := walk), w.store, w.fs).Some? {
          RightForIff(c.(walk := walk), w, mid);
        }
      }
    } else {
      var only := OnlyFor(w.fs.files.Keys, w.fs.rules, w.store.roots.Values);
      RightForIff(c.(walk := only), w, mid);
      assert !RightFor(c.(walk := only), w, mid);
    }
  }

  // ------------------------------------------------------------ where the hypotheses matter

  /** Where the walk then finds another list, the invalidation is lost: the client is served the old one. */
  lemma LateInvalidationIsLost(c: Config, w: World, mid: seq<Action>, walked: seq<WalkedFile>)
    requires NoWalkSteps(mid) && w.store.registered && WalkOf(c, w.store, w.fs) == Some(walked)
    requires var later := DiskAfter(w.fs, mid);
             c.walk(later.files.Keys, later.rules, RootsAfter(w.store.roots, mid).Values) != Some(walked)
    ensures var t := Acts(c, w, Overtaken(mid));
            && !t.undelivered
            && Walked(c, t.store, t.fs) == Some(walked) != WalkOf(c, t.store, t.fs)
            && !WalkCoherent(c, t.store, t.fs)
  {
    StartedListIsServed(c, w, mid);
  }

  /** A save of a workspace document keeps its stamp: the next refresh serves the saved text for the disk's. */
  lemma SavedWorkspaceDocumentGoesStale(c: Config, s: Store, fs: FileSystem, url: Url, sent: string, language: string)
    requires s.IsWorkspace(url) && StampCoherent(s, fs)
    requires s.docs[url].stamp.Some? && s.docs[url].stamp == fs.StampOf(url) && fs.Read(url) != Some(sent)
    ensures var t := OnSave(c, s, fs, url, Some(sent));
            var m := Moment(fs, fs);
            && Skips(t, WalkedFile(url, language), m)
            && WorkspaceText(Load(t, WalkedFile(url, language), m).0, url) == Some(sent) != fs.Read(url)
            && !StampCoherent(t, fs)
  {
    var t := OnSave(c, s, fs, url, Some(sent));
    assert !EntryCoherent(t.docs[url], url, fs);
  }
}
