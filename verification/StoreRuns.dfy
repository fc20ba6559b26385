/** What every sequential run of the store's handlers keeps. */
module StoreRuns {
  import opened Wrappers
  import opened StoreModel
  import Sync = DocumentSync
  import Delta = TokenDelta

  /** The handlers, each with the disk it reads. */
  datatype Event =
    | Opened(url: Url, text: string, version: int, language: string)
    | Closed(closedUrl: Url, closedOn: FileSystem)
    | DidChange(changedUrl: Url, changedOn: FileSystem, changedVersion: int, changes: seq<Sync.ContentChange>)
    | Saved(savedUrl: Url, savedOn: FileSystem, sent: Option<string>)
    | FileEvents(events: seq<FileEvent>)
    | FilesGone(gone: seq<Option<Url>>)
    | FoldersChanged(removed: set<Url>, added: seq<(Url, Option<Path>)>)
    | Switched(on: bool)
    | Registered
    | TokensStored(tokensUrl: Url, cached: Delta.CachedSemanticTokens)
    | Refreshed(walkedOn: FileSystem, at: nat -> Moment)

  function Step(c: Config, s: Store, e: Event): Store {
    match e
    case Opened(url, text, version, language) => OnOpen(s, url, text, version, language)
    case Closed(url, fs) => OnClose(c, s, fs, url)
    case DidChange(url, fs, version, changes) => OnChange(c, s, fs, url, version, changes)
    case Saved(url, fs, sent) => OnSave(c, s, fs, url, sent)
    case FileEvents(es) => OnFileEvents(c, s, es)
    case FilesGone(urls) => OnFilesGone(s, urls)
    case FoldersChanged(removed, added) => OnFolders(c, s, removed, added)
    case Switched(on) => ApplyEnabled(s, on)
    case Registered => s.(registered := true)
    case TokensStored(url, cached) => StoreTokens(s, url, cached)
    case Refreshed(fs, at) => Refresh(c, s, fs, at).0
  }

  function Run(c: Config, s: Store, es: seq<Event>): Store {
    if es == [] then s else Step(c, Run(c, s, es[..|es| - 1]), es[|es| - 1])
  }

  // ------------------------------------------------------------ the invariant

  /** Token streams belong to tracked documents, and workspace documents have version zero. */
  ghost predicate Inv(s: Store) {
    && s.tokens.Keys <= s.docs.Keys
    && forall url :: s.IsWorkspace(url) ==> s.docs[url].document.version == 0
  }

  /** Token streams are only ever stored for tracked documents. */
  predicate MayStore(s: Store, e: Event) { e.TokensStored? ==> s.Tracks(e.tokensUrl) }

  ghost predicate MayRun(c: Config, s: Store, es: seq<Event>) {
    forall k :: 0 <= k < |es| ==> MayStore(Run(c, s, es[..k]), es[k])
  }

  lemma RetainKeepsInv(s: Store, keep: (Url, DocumentEntry) -> bool)
    requires Inv(s)
    ensures Inv(Retain(s, keep))
  {
  }

  lemma LoadKeepsInv(s: Store, w: WalkedFile, m: Moment)
    requires Inv(s)
    ensures Inv(Load(s, w, m).0)
  {
  }

  lemma {:induction false} LoadAllKeepsInv(s: Store, loads: seq<WalkedFile>, at: nat -> Moment, k: nat)
    requires Inv(s)
    ensures Inv(LoadAll(s, loads, at, k).0)
    decreases loads
  {
    if loads != [] {
      LoadKeepsInv(s, loads[0], at(k));
      LoadAllKeepsInv(Load(s, loads[0], at(k)).0, loads[1..], at, k + 1);
    }
  }

  lemma RefreshKeepsInv(c: Config, s: Store, fs: FileSystem, at: nat -> Moment)
    requires Inv(s)
    ensures Inv(Refresh(c, s, fs, at).0)
  {
    if s.DiagnosticsOn() && s.roots != map[] && Walked(c, s, fs).Some? {
      var t := AfterWalk(c, s, fs);
      var loads := Pick(t, Walked(c, s, fs).value, false);
      LoadAllKeepsInv(t, loads, at, 0);
      var all := Refresh(c, s, fs, at).1.value;
      RetainKeepsInv(LoadAll(t, loads, at, 0).0, KeepAfterRefresh(c, s.roots.Values, all));
    }
  }

  lemma InsertKeepsInv(s: Store, url: Url, text: string, version: int, language: string, origin: Origin)
    requires Inv(s) && (origin == Workspace ==> version == 0)
    ensures Inv(Insert(s, url, text, version, language, origin))
  {
  }

  lemma NoticedOnlyWalk(c: Config, s: Store, e: FileEvent)
    ensures var t := Noticed(c, s, e);
            && t.docs == s.docs && t.tokens == s.tokens && t.roots == s.roots && t.enabled == s.enabled
            && t.registered == s.registered
            && t.walk == if ChangesMembership(c, e) then s.walk.Invalidated() else s.walk
  {
  }

  /** All a file event can do besides: nothing, drop its workspace document, or install the disk's text for it. */
  lemma FileEventActs(c: Config, s: Store, e: FileEvent)
    ensures var t := Noticed(c, s, e);
            var u := OnFileEvent(c, s, e);
            || u == t
            || (t.IsWorkspace(e.url) && u == Remove(t, e.url))
            || (t.IsWorkspace(e.url) && c.ReadNamed(e.fs, e.url).Some? &&
                u == Reread(t, e.url, c.ReadNamed(e.fs, e.url).value))
  {
    NoticedOnlyWalk(c, s, e);
  }

  lemma FileEventKeepsInv(c: Config, s: Store, e: FileEvent)
    requires Inv(s)
    ensures Inv(OnFileEvent(c, s, e))
  {
    NoticedOnlyWalk(c, s, e);
    FileEventActs(c, s, e);
  }

  lemma {:induction false} FileEventsKeepInv(c: Config, s: Store, es: seq<FileEvent>)
    requires Inv(s)
    ensures Inv(OnFileEvents(c, s, es))
    decreases es
  {
    if es != [] {
      FileEventKeepsInv(c, s, es[0]);
      FileEventsKeepInv(c, OnFileEvent(c, s, es[0]), es[1..]);
    }
  }

  lemma {:induction false} FilesGoneKeepInv(s: Store, urls: seq<Option<Url>>)
    requires Inv(s)
    ensures Inv(OnFilesGone(s, urls))
    decreases urls
  {
    if urls != [] {
      FilesGoneKeepInv(RemoveWorkspace(s, urls[0]), urls[1..]);
    }
  }

  lemma FoldersKeepInv(c: Config, s: Store, removed: set<Url>, added: seq<(Url, Option<Path>)>)
    requires Inv(s)
    ensures Inv(OnFolders(c, s, removed, added))
  {
    var gone := set u | u in removed && u in s.roots :: s.roots[u];
    RetainKeepsInv(s.(walk := CLEARED, roots := s.roots - removed), KeepOutside(c, gone));
  }

  lemma SwitchKeepsInv(s: Store, on: bool)
    requires Inv(s)
    ensures Inv(ApplyEnabled(s, on))
  {
    RetainKeepsInv(s.(enabled := on), KeepOpen());
  }

  lemma CloseKeepsInv(c: Config, s: Store, fs: FileSystem, url: Url)
    requires Inv(s)
    ensures Inv(OnClose(c, s, fs, url))
  {
  }

  lemma ChangeKeepsInv(c: Config, s: Store, fs: FileSystem, url: Url, version: int, changes: seq<Sync.ContentChange>)
    requires Inv(s)
    ensures Inv(OnChange(c, s, fs, url, version, changes))
  {
  }

  lemma SaveKeepsInv(c: Config, s: Store, fs: FileSystem, url: Url, sent: Option<string>)
    requires Inv(s)
    ensures Inv(OnSave(c, s, fs, url, sent))
  {
  }

  lemma StepKeepsInv(c: Config, s: Store, e: Event)
    requires Inv(s) && MayStore(s, e)
    ensures Inv(Step(c, s, e))
  {
    match e
    case FileEvents(es) => FileEventsKeepInv(c, s, es);
    case FilesGone(urls) => FilesGoneKeepInv(s, urls);
    case FoldersChanged(removed, added) => FoldersKeepInv(c, s, removed, added);
    case Switched(on) => SwitchKeepsInv(s, on);
    case Refreshed(fs, at) => RefreshKeepsInv(c, s, fs, at);
    case Opened(url, text, version, language) => InsertKeepsInv(s, url, text, version, language, Open);
    case Closed(url, fs) => CloseKeepsInv(c, s, fs, url);
    case DidChange(url, fs, version, changes) => ChangeKeepsInv(c, s, fs, url, version, changes);
    case Saved(url, fs, sent) => SaveKeepsInv(c, s, fs, url, sent);
    case Registered =>
    case TokensStored(_, _) =>
  }

  /** The invariant holds after every sequential run of handlers. */
  lemma {:induction false} RunKeepsInv(c: Config, s: Store, es: seq<Event>)
    requires Inv(s) && MayRun(c, s, es)
    ensures Inv(Run(c, s, es))
  {
    if es != [] {
      var init := es[..|es| - 1];
      forall k | 0 <= k < |init| ensures MayStore(Run(c, s, init[..k]), init[k]) {
        assert init[..k] == es[..k];
      }
      RunKeepsInv(c, s, init);
      StepKeepsInv(c, Run(c, s, init), es[|es| - 1]);
    }
  }

  // ------------------------------------------------------------ open documents belong to the editor

  /** The handlers that answer to the disk or to settings, not to the editor. */
  predicate NotFromEditor(e: Event) {
    e.FileEvents? || e.FilesGone? || e.FoldersChanged? || e.Switched? || e.Registered? || e.Refreshed?
  }

  /** Open documents of `s` are in `t` as they were. */
  ghost predicate KeepsOpen(s: Store, t: Store) {
    forall url :: s.IsOpen(url) ==> url in t.docs && t.docs[url] == s.docs[url]
  }

  lemma FileEventKeepsOpen(c: Config, s: Store, e: FileEvent)
    ensures KeepsOpen(s, OnFileEvent(c, s, e))
  {
    NoticedOnlyWalk(c, s, e);
    FileEventActs(c, s, e);
  }

  lemma {:induction false} FileEventsKeepOpen(c: Config, s: Store, es: seq<FileEvent>)
    ensures KeepsOpen(s, OnFileEvents(c, s, es))
    decreases es
  {
    if es != [] {
      FileEventKeepsOpen(c, s, es[0]);
      FileEventsKeepOpen(c, OnFileEvent(c, s, es[0]), es[1..]);
    }
  }

  lemma {:induction false} FilesGoneKeepOpen(s: Store, urls: seq<Option<Url>>)
    ensures KeepsOpen(s, OnFilesGone(s, urls))
    decreases urls
  {
    if urls != [] {
      FilesGoneKeepOpen(RemoveWorkspace(s, urls[0]), urls[1..]);
    }
  }

  lemma LoadKeepsOpen(s: Store, w: WalkedFile, m: Moment)
    requires !s.IsOpen(w.url)
    ensures KeepsOpen(s, Load(s, w, m).0) && OpensNothing(s, Load(s, w, m).0)
  {
  }

  /** What is open in `t` was open in `s`. */
  ghost predicate OpensNothing(s: Store, t: Store) { forall url :: t.IsOpen(url) ==> s.IsOpen(url) }

  lemma {:induction false} LoadAllKeepsOpen(s: Store, loads: seq<WalkedFile>, at: nat -> Moment, k: nat)
    requires forall i :: 0 <= i < |loads| ==> !s.IsOpen(loads[i].url)
    ensures KeepsOpen(s, LoadAll(s, loads, at, k).0) && OpensNothing(s, LoadAll(s, loads, at, k).0)
    decreases loads
  {
    if loads != [] {
      var t := Load(s, loads[0], at(k)).0;
      LoadKeepsOpen(s, loads[0], at(k));
      assert forall i :: 0 <= i < |loads[1..]| ==> loads[1..][i] == loads[i + 1];
      LoadAllKeepsOpen(t, loads[1..], at, k + 1);
    }
  }

  /** Picking partitions the walked files by whether their documents are open. */
  lemma {:induction false} PickedBy(s: Store, walked: seq<WalkedFile>, open: bool)
    ensures forall i :: 0 <= i < |Pick(s, walked, open)| ==> s.IsOpen(Pick(s, walked, open)[i].url) == open
  {
    if walked != [] {
      PickedBy(s, walked[1..], open);
    }
  }

  lemma RefreshKeepsOpen(c: Config, s: Store, fs: FileSystem, at: nat -> Moment)
    ensures KeepsOpen(s, Refresh(c, s, fs, at).0)
  {
    if s.DiagnosticsOn() && s.roots != map[] && Walked(c, s, fs).Some? {
      var t := AfterWalk(c, s, fs);
      var loads := Pick(t, Walked(c, s, fs).value, false);
      PickedBy(t, Walked(c, s, fs).value, false);
      LoadAllKeepsOpen(t, loads, at, 0);
    }
  }

  /** No refresh, file event, rename, delete, folder change or switch removes or rewrites an open document. */
  lemma EditorOwnsOpenDocuments(c: Config, s: Store, e: Event)
    requires NotFromEditor(e)
    ensures KeepsOpen(s, Step(c, s, e))
  {
    match e
    case FileEvents(es) => FileEventsKeepOpen(c, s, es);
    case FilesGone(urls) => FilesGoneKeepOpen(s, urls);
    case FoldersChanged(_, _) =>
    case Switched(_) =>
    case Registered =>
    case Refreshed(fs, at) => RefreshKeepsOpen(c, s, fs, at);
  }

  /** ... and so none does over a whole run of such steps. */
  lemma {:induction false} RunKeepsOpen(c: Config, s: Store, es: seq<Event>)
    requires forall i :: 0 <= i < |es| ==> NotFromEditor(es[i])
    ensures KeepsOpen(s, Run(c, s, es))
  {
    if es != [] {
      var init := es[..|es| - 1];
      assert forall i :: 0 <= i < |init| ==> init[i] == es[i];
      RunKeepsOpen(c, s, init);
      EditorOwnsOpenDocuments(c, Run(c, s, init), es[|es| - 1]);
    }
  }

  /** Only workspace handlers ever add workspace documents, and off means none is left. */
  ghost predicate OnlyOpenWhenOff(s: Store) { !s.enabled ==> forall url :: url in s.docs ==> s.IsOpen(url) }

  lemma {:induction false} FileEventsKeepOff(c: Config, s: Store, es: seq<FileEvent>)
    requires OnlyOpenWhenOff(s)
    ensures OnlyOpenWhenOff(OnFileEvents(c, s, es)) && OnFileEvents(c, s, es).enabled == s.enabled
    decreases es
  {
    if es != [] {
      FileEventActs(c, s, es[0]);
      NoticedOnlyWalk(c, s, es[0]);
      FileEventsKeepOff(c, OnFileEvent(c, s, es[0]), es[1..]);
    }
  }

  lemma {:induction false} FilesGoneKeepOff(s: Store, urls: seq<Option<Url>>)
    requires OnlyOpenWhenOff(s)
    ensures OnlyOpenWhenOff(OnFilesGone(s, urls)) && OnFilesGone(s, urls).enabled == s.enabled
    decreases urls
  {
    if urls != [] {
      FilesGoneKeepOff(RemoveWorkspace(s, urls[0]), urls[1..]);
    }
  }

  lemma {:induction false} LoadAllKeepsEnabled(s: Store, loads: seq<WalkedFile>, at: nat -> Moment, k: nat)
    ensures LoadAll(s, loads, at, k).0.enabled == s.enabled
    decreases loads
  {
    if loads != [] {
      LoadAllKeepsEnabled(Load(s, loads[0], at(k)).0, loads[1..], at, k + 1);
    }
  }

  lemma RetainKeepsOff(s: Store, keep: (Url, DocumentEntry) -> bool)
    requires OnlyOpenWhenOff(s)
    ensures OnlyOpenWhenOff(Retain(s, keep))
  {
  }

  lemma SwitchKeepsOff(s: Store, on: bool)
    requires OnlyOpenWhenOff(s)
    ensures OnlyOpenWhenOff(ApplyEnabled(s, on))
  {
  }

  lemma FoldersKeepOff(c: Config, s: Store, removed: set<Url>, added: seq<(Url, Option<Path>)>)
    requires OnlyOpenWhenOff(s)
    ensures OnlyOpenWhenOff(OnFolders(c, s, removed, added))
  {
    var gone := set u | u in removed && u in s.roots :: s.roots[u];
    RetainKeepsOff(s.(walk := CLEARED, roots := s.roots - removed), KeepOutside(c, gone));
  }

  lemma RefreshKeepsOff(c: Config, s: Store, fs: FileSystem, at: nat -> Moment)
    requires OnlyOpenWhenOff(s)
    ensures OnlyOpenWhenOff(Refresh(c, s, fs, at).0)
  {
    if s.DiagnosticsOn() && s.roots != map[] && Walked(c, s, fs).Some? {
      LoadAllKeepsEnabled(AfterWalk(c, s, fs), Pick(AfterWalk(c, s, fs), Walked(c, s, fs).value, false), at, 0);
    }
  }

  lemma CloseKeepsOff(c: Config, s: Store, fs: FileSystem, url: Url)
    requires OnlyOpenWhenOff(s)
    ensures OnlyOpenWhenOff(OnClose(c, s, fs, url))
  {
  }

  lemma ChangeKeepsOff(c: Config, s: Store, fs: FileSystem, url: Url, version: int, changes: seq<Sync.ContentChange>)
    requires OnlyOpenWhenOff(s)
    ensures OnlyOpenWhenOff(OnChange(c, s, fs, url, version, changes))
  {
  }

  lemma SaveKeepsOff(c: Config, s: Store, fs: FileSystem, url: Url, sent: Option<string>)
    requires OnlyOpenWhenOff(s)
    ensures OnlyOpenWhenOff(OnSave(c, s, fs, url, sent))
  {
  }

  lemma StepKeepsOff(c: Config, s: Store, e: Event)
    requires OnlyOpenWhenOff(s)
    ensures OnlyOpenWhenOff(Step(c, s, e))
  {
    match e
    case FileEvents(es) => FileEventsKeepOff(c, s, es);
    case FilesGone(urls) => FilesGoneKeepOff(s, urls);
    case Refreshed(fs, at) => RefreshKeepsOff(c, s, fs, at);
    case FoldersChanged(removed, added) => FoldersKeepOff(c, s, removed, added);
    case Switched(on) => SwitchKeepsOff(s, on);
    case Opened(_, _, _, _) =>
    case Closed(url, fs) => CloseKeepsOff(c, s, fs, url);
    case DidChange(url, fs, version, changes) => ChangeKeepsOff(c, s, fs, url, version, changes);
    case Saved(url, fs, sent) => SaveKeepsOff(c, s, fs, url, sent);
    case Registered =>
    case TokensStored(_, _) =>
  }

  /** Over every run, while diagnostics are switched off only open documents are tracked. */
  lemma {:induction false} RunKeepsOff(c: Config, s: Store, es: seq<Event>)
    requires OnlyOpenWhenOff(s)
    ensures OnlyOpenWhenOff(Run(c, s, es))
  {
    if es != [] {
      RunKeepsOff(c, s, es[..|es| - 1]);
      StepKeepsOff(c, Run(c, s, es[..|es| - 1]), es[|es| - 1]);
    }
  }

  // ------------------------------------------------------------ token streams follow their text

  /** A token stream that is still cached was cached before, for a document whose text still stands. */
  ghost predicate TokensFollowText(s: Store, t: Store) {
    forall url :: url in t.tokens ==>
      && url in s.tokens && t.tokens[url] == s.tokens[url]
      && (url in s.docs ==> url in t.docs && t.docs[url].document == s.docs[url].document)
  }

  lemma FollowsTransitively(s: Store, t: Store, u: Store)
    requires TokensFollowText(s, t) && TokensFollowText(t, u)
    ensures TokensFollowText(s, u)
  {
  }

  lemma EvictsFollow(s: Store, url: Url, text: string, version: int, language: string, origin: Origin)
    ensures TokensFollowText(s, Remove(s, url))
    ensures TokensFollowText(s, Insert(s, url, text, version, language, origin))
  {
  }

  lemma FileEventFollowsText(c: Config, s: Store, e: FileEvent)
    ensures TokensFollowText(s, OnFileEvent(c, s, e))
    ensures OnFileEvent(c, s, e).docs.Keys <= s.docs.Keys
  {
    NoticedOnlyWalk(c, s, e);
    FileEventActs(c, s, e);
  }

  lemma {:induction false} FileEventsFollowText(c: Config, s: Store, es: seq<FileEvent>)
    ensures TokensFollowText(s, OnFileEvents(c, s, es))
    ensures OnFileEvents(c, s, es).docs.Keys <= s.docs.Keys
    decreases es
  {
    if es != [] {
      FileEventFollowsText(c, s, es[0]);
      FileEventsFollowText(c, OnFileEvent(c, s, es[0]), es[1..]);
      FollowsTransitively(s, OnFileEvent(c, s, es[0]), OnFileEvents(c, s, es));
    }
  }

  lemma {:induction false} FilesGoneFollowText(s: Store, urls: seq<Option<Url>>)
    ensures TokensFollowText(s, OnFilesGone(s, urls))
    ensures OnFilesGone(s, urls).docs.Keys <= s.docs.Keys
    decreases urls
  {
    if urls != [] {
      FilesGoneFollowText(RemoveWorkspace(s, urls[0]), urls[1..]);
    }
  }

  lemma {:induction false} LoadsFollowText(s: Store, loads: seq<WalkedFile>, at: nat -> Moment, k: nat)
    ensures TokensFollowText(s, LoadAll(s, loads, at, k).0)
    decreases loads
  {
    if loads != [] {
      LoadsFollowText(Load(s, loads[0], at(k)).0, loads[1..], at, k + 1);
    }
  }

  lemma RefreshFollowsText(c: Config, s: Store, fs: FileSystem, at: nat -> Moment)
    ensures TokensFollowText(s, Refresh(c, s, fs, at).0)
  {
    if s.DiagnosticsOn() && s.roots != map[] && Walked(c, s, fs).Some? {
      var t := AfterWalk(c, s, fs);
      LoadsFollowText(t, Pick(t, Walked(c, s, fs).value, false), at, 0);
    }
  }

  lemma CloseFollowsText(c: Config, s: Store, fs: FileSystem, url: Url)
    ensures TokensFollowText(s, OnClose(c, s, fs, url))
  {
    if s.Tracks(url) {
      var text := if c.ReadNamed(fs, url).Some? then c.ReadNamed(fs, url).value else "";
      EvictsFollow(s, url, text, 0, s.docs[url].document.language, Workspace);
    }
  }

  lemma RetainFollowsText(s: Store, keep: (Url, DocumentEntry) -> bool)
    ensures TokensFollowText(s, Retain(s, keep))
  {
  }

  lemma FoldersFollowText(c: Config, s: Store, removed: set<Url>, added: seq<(Url, Option<Path>)>)
    ensures TokensFollowText(s, OnFolders(c, s, removed, added))
  {
    var gone := set u | u in removed && u in s.roots :: s.roots[u];
    RetainFollowsText(s.(walk := CLEARED, roots := s.roots - removed), KeepOutside(c, gone));
  }

  lemma SwitchFollowsText(s: Store, on: bool)
    ensures TokensFollowText(s, ApplyEnabled(s, on))
  {
    RetainFollowsText(s.(enabled := on), KeepOpen());
  }

  lemma SaveFollowsText(c: Config, s: Store, fs: FileSystem, url: Url, sent: Option<string>)
    ensures TokensFollowText(s, OnSave(c, s, fs, url, sent))
  {
  }

  /** Besides a change and a stored stream, no handler leaves a stream cached for a text it replaced. */
  lemma StreamsFollowText(c: Config, s: Store, e: Event)
    requires !e.DidChange? && !e.TokensStored?
    ensures TokensFollowText(s, Step(c, s, e))
  {
    match e
    case FileEvents(es) => FileEventsFollowText(c, s, es);
    case FilesGone(urls) => FilesGoneFollowText(s, urls);
    case Refreshed(fs, at) => RefreshFollowsText(c, s, fs, at);
    case FoldersChanged(removed, added) => FoldersFollowText(c, s, removed, added);
    case Switched(on) => SwitchFollowsText(s, on);
    case Opened(url, text, version, language) => EvictsFollow(s, url, text, version, language, Open);
    case Closed(url, fs) => CloseFollowsText(c, s, fs, url);
    case Saved(url, fs, sent) => SaveFollowsText(c, s, fs, url, sent);
    case Registered =>
  }

  // ------------------------------------------------------------ single handlers

  /** No new URL is tracked. */
  ghost predicate TracksNothing(s: Store, t: Store) { t.docs.Keys <= s.docs.Keys }

  lemma EditorTracksNothing(c: Config, s: Store, fs: FileSystem, url: Url, version: int,
                            changes: seq<Sync.ContentChange>)
    ensures TracksNothing(s, OnClose(c, s, fs, url))
    ensures TracksNothing(s, OnChange(c, s, fs, url, version, changes))
  {
  }

  lemma SettingsTrackNothing(c: Config, s: Store, removed: set<Url>, added: seq<(Url, Option<Path>)>, on: bool)
    ensures TracksNothing(s, OnFolders(c, s, removed, added))
    ensures TracksNothing(s, ApplyEnabled(s, on))
  {
  }

  /** Only opening and refreshing ever track a new URL. */
  lemma OnlyOpenAndRefreshTrack(c: Config, s: Store, e: Event)
    requires !e.Opened? && !e.Refreshed?
    ensures TracksNothing(s, Step(c, s, e))
  {
    match e
    case FileEvents(es) => FileEventsFollowText(c, s, es);
    case FilesGone(urls) => FilesGoneFollowText(s, urls);
    case FoldersChanged(removed, added) => SettingsTrackNothing(c, s, removed, added, true);
    case Switched(on) => SettingsTrackNothing(c, s, {}, [], on);
    case Closed(url, fs) => EditorTracksNothing(c, s, fs, url, 0, []);
    case DidChange(url, fs, version, changes) => EditorTracksNothing(c, s, fs, url, version, changes);
    case Saved(url, fs, sent) => SaveInstallsText(c, s, fs, url, sent);
    case Registered =>
    case TokensStored(_, _) =>
  }

  /** All documents but one are as they were. */
  ghost predicate OthersKept(s: Store, t: Store, url: Url) {
    forall u :: u != url ==> (u in t.docs <==> u in s.docs) && (u in s.docs ==> t.docs[u] == s.docs[u])
  }

  /** A closed document is never open; it stays, with the disk's text, only as one the workspace reports. */
  lemma ClosedLeavesTheEditor(c: Config, s: Store, fs: FileSystem, url: Url)
    requires Inv(s)
    ensures var t := OnClose(c, s, fs, url);
            && !t.IsOpen(url) && OthersKept(s, t, url)
            && (s.Tracks(url) ==> url !in t.tokens)
            && (s.Tracks(url) && t.Tracks(url) ==>
                  && s.DiagnosticsOn() && c.matches(url) && InRoots(c, url, s.roots.Values)
                  && Some(t.docs[url].document.text) == c.ReadNamed(fs, url)
                  && t.docs[url].stamp.None?)
  {
  }

  /**
   A save gives a tracked document the text sent, else the disk's, and drops the document when
   there is neither; its version, origin and stamp stay, its token stream goes, all else stays.
   */
  lemma SaveInstallsText(c: Config, s: Store, fs: FileSystem, url: Url, sent: Option<string>)
    ensures var t := OnSave(c, s, fs, url, sent);
            var text := if sent.Some? then sent else fs.Read(c.named(url));
            && OthersKept(s, t, url)
            && t.walk == s.walk && t.roots == s.roots && t.enabled == s.enabled
            && t.supported == s.supported && t.registered == s.registered
            && (forall u :: u in t.tokens <==> u in s.tokens && (u != url || !s.Tracks(url)))
            && (forall u :: u in t.tokens ==> t.tokens[u] == s.tokens[u])
            && (t.Tracks(url) <==> s.Tracks(url) && text.Some?)
            && (t.Tracks(url) ==>
                  && Some(t.docs[url].document.text) == text
                  && t.docs[url].document.version == s.docs[url].document.version
                  && t.docs[url].document.language == s.docs[url].document.language
                  && t.docs[url].origin == s.docs[url].origin && t.docs[url].stamp == s.docs[url].stamp)
  {
  }

  /**
   A batch on a tracked document installs its whole fold when every change applies; otherwise the
   disk's text when readable, else the fold of the changes before the first failing one.
   */
  lemma ChangeInstallsFold(c: Config, s: Store, fs: FileSystem, url: Url, version: int,
                           changes: seq<Sync.ContentChange>)
    requires s.Tracks(url)
    ensures OthersKept(s, OnChange(c, s, fs, url, version, changes), url)
    ensures var before := s.docs[url].document;
            var t := OnChange(c, s, fs, url, version, changes);
            && t.IsOpen(url)
            && t.docs[url].document.version == version && t.docs[url].document.language == before.language
            && var text := t.docs[url].document.text;
               if Sync.Applies(before.text, changes, c.encoding)
               then text == Sync.FoldChanges(before.text, changes, c.encoding).0 && t.tokens == s.tokens
               else if c.ReadNamed(fs, url).Some?
               then Some(text) == c.ReadNamed(fs, url) && t.tokens == s.tokens - {url}
               else PrefixFold(before.text, changes, c, text) && t.tokens == s.tokens
  {
    FailedFoldIsPrefix(c, s.docs[url].document.text, changes);
    ChangeTouchesOne(c, s, fs, url, version, changes);
  }

  lemma ChangeTouchesOne(c: Config, s: Store, fs: FileSystem, url: Url, version: int,
                         changes: seq<Sync.ContentChange>)
    requires s.Tracks(url)
    ensures var t := OnChange(c, s, fs, url, version, changes);
            && t.IsOpen(url) && OthersKept(s, t, url)
  {
  }

  lemma FailedFoldIsPrefix(c: Config, before: string, changes: seq<Sync.ContentChange>)
    ensures var (text, failed) := Sync.FoldChanges(before, changes, c.encoding);
            && (failed <==> !Sync.Applies(before, changes, c.encoding))
            && (failed ==> PrefixFold(before, changes, c, text))
  {
    Sync.FailureKeepsPrefix(before, changes, c.encoding);
    if !Sync.Applies(before, changes, c.encoding) {
      var n :| 0 <= n < |changes| && Sync.FailsAt(before, changes, c.encoding, n);
      assert PrefixFold(before, changes, c, Sync.FoldChanges(before, changes, c.encoding).0);
    }
  }

  /** `text` is the fold of the changes before the first that does not apply. */
  ghost predicate PrefixFold(before: string, changes: seq<Sync.ContentChange>, c: Config, text: string) {
    exists n :: 0 <= n < |changes| && Sync.FailsAt(before, changes, c.encoding, n) &&
                text == Sync.FoldChanges(before, changes[..n], c.encoding).0
  }
}
