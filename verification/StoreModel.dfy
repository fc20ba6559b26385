/** The document store's state as a value, and each handler as a function of it. */
module StoreModel {
  import opened Wrappers
  import opened TextEncoding
  import Sync = DocumentSync
  import Delta = TokenDelta

  type Url = string

  /** A file path, by components. */
  type Path = seq<string>

  /** Modification time and size; the model only compares stamps. */
  type Stamp = nat

  datatype Origin = Open | Workspace

  datatype Document = Document(language: string, version: int, text: string)

  datatype DocumentEntry = DocumentEntry(document: Document, origin: Origin, stamp: Option<Stamp>)

  // ------------------------------------------------------------ the disk

  /** `text` is None for a file that cannot be read, `stamp` for one without metadata. */
  datatype File = File(text: Option<string>, stamp: Option<Stamp>)

  /** `rules` is the state of the ignore files; `clock` is the next stamp a write gets. */
  datatype FileSystem = FileSystem(files: map<Url, File>, rules: nat, clock: Stamp) {
    function Read(url: Url): Option<string> { if url in files then files[url].text else None }

    function StampOf(url: Url): Option<Stamp> { if url in files then files[url].stamp else None }

    function FileOf(url: Url): Option<File> { if url in files then Some(files[url]) else None }
  }

  // ------------------------------------------------------------ the store

  datatype WalkedFile = WalkedFile(url: Url, language: string)

  /** The workspace file list between invalidations. */
  datatype WalkList = WalkList(entries: Option<seq<WalkedFile>>, dirty: bool) {
    function GetValid(): Option<seq<WalkedFile>> { if dirty then None else entries }

    function Invalidated(): WalkList { WalkList(entries, true) }
  }

  const CLEARED := WalkList(None, true)

  /** A walk of the given files and ignore rules under the given roots; None when it fails. */
  type Walk = (set<Url>, nat, set<Path>) -> Option<seq<WalkedFile>>

  /**
   What a session fixes: paths and matchers of URLs, the walk, and the negotiated encoding. A handler
   opens a URL's path as it is written; `named` is the file that path names when its escapes are not
   decoded, so the URL's own file only when there are none. A refresh opens the walked path itself.
   */
  datatype Config = Config(pathOf: Url -> Option<Path>, named: Url -> Url, matches: Url -> bool,
                           isIgnoreFile: Url -> bool, walk: Walk, encoding: Encoding)
  {
    /** What a handler reads for a URL. */
    function ReadNamed(fs: FileSystem, url: Url): Option<string> { fs.Read(named(url)) }
  }

  datatype Store = Store(docs: map<Url, DocumentEntry>, tokens: map<Url, Delta.CachedSemanticTokens>,
                         roots: map<Url, Path>, enabled: bool, supported: bool, registered: bool, walk: WalkList)
  {
    predicate Tracks(url: Url) { url in docs }

    predicate IsOpen(url: Url) { url in docs && docs[url].origin == Open }

    predicate IsWorkspace(url: Url) { url in docs && docs[url].origin == Workspace }

    predicate DiagnosticsOn() { supported && enabled }
  }

  predicate InRoots(c: Config, url: Url, roots: set<Path>) {
    c.pathOf(url).Some? && exists root :: root in roots && root <= c.pathOf(url).value
  }

  // ------------------------------------------------------------ elementary changes

  /** A fresh installation; the token stream of what it replaces is dropped. */
  function Insert(s: Store, url: Url, text: string, version: int, language: string, origin: Origin): Store {
    s.(docs := s.docs[url := DocumentEntry(Document(language, version, text), origin, None)],
       tokens := s.tokens - {url})
  }

  function Remove(s: Store, url: Url): Store { s.(docs := s.docs - {url}, tokens := s.tokens - {url}) }

  function Retain(s: Store, keep: (Url, DocumentEntry) -> bool): Store {
    var kept := map url | url in s.docs && keep(url, s.docs[url]) :: s.docs[url];
    s.(docs := kept, tokens := s.tokens - (s.docs.Keys - kept.Keys))
  }

  // ------------------------------------------------------------ editor notifications

  function OnOpen(s: Store, url: Url, text: string, version: int, language: string): Store {
    Insert(s, url, text, version, language, Open)
  }

  function OnClose(c: Config, s: Store, fs: FileSystem, url: Url): Store {
    if !s.Tracks(url) then s
    else if s.DiagnosticsOn() && c.matches(url) && InRoots(c, url, s.roots.Values) && c.ReadNamed(fs, url).Some?
    then Insert(s, url, c.ReadNamed(fs, url).value, 0, s.docs[url].document.language, Workspace)
    else Remove(s, url)
  }

  /** The batch's fold is installed; after a failing change the disk text replaces it, when readable. */
  function OnChange(c: Config, s: Store, fs: FileSystem, url: Url, version: int,
                    changes: seq<Sync.ContentChange>): Store {
    if !s.Tracks(url) then s
    else
      var language := s.docs[url].document.language;
      var (text, failed) := Sync.FoldChanges(s.docs[url].document.text, changes, c.encoding);
      if failed && c.ReadNamed(fs, url).Some?
      then Insert(s, url, c.ReadNamed(fs, url).value, version, language, Open)
      else s.(docs := s.docs[url := s.docs[url].(document := Document(language, version, text), origin := Open)])
  }

  /** The text a save installs: the one sent with it, else the disk's. */
  function SavedText(c: Config, fs: FileSystem, url: Url, sent: Option<string>): Option<string> {
    if sent.Some? then sent else c.ReadNamed(fs, url)
  }

  function OnSave(c: Config, s: Store, fs: FileSystem, url: Url, sent: Option<string>): Store {
    var text := SavedText(c, fs, url, sent);
    if !s.Tracks(url) then s
    else if text.None? then Remove(s, url)
    else
      var entry := s.docs[url];
      s.(docs := s.docs[url := entry.(document := entry.document.(text := text.value))], tokens := s.tokens - {url})
  }

  // ------------------------------------------------------------ file events

  datatype ChangeKind = Created | Changed | Deleted

  /** An event and the disk it is handled on. */
  datatype FileEvent = FileEvent(url: Url, kind: ChangeKind, fs: FileSystem)

  /** Whether the event may change which files a walk finds. */
  predicate ChangesMembership(c: Config, e: FileEvent) { c.isIgnoreFile(e.url) || e.kind != Changed }

  /** The walk list is stale once the files it would find may have changed. */
  function Noticed(c: Config, s: Store, e: FileEvent): Store {
    if ChangesMembership(c, e) then s.(walk := s.walk.Invalidated()) else s
  }

  /** A workspace document installed afresh with a text from the disk. */
  function Reread(s: Store, url: Url, text: string): Store
    requires s.Tracks(url)
  {
    Insert(s, url, text, 0, s.docs[url].document.language, Workspace)
  }

  function OnFileEvent(c: Config, s: Store, e: FileEvent): Store {
    var t := Noticed(c, s, e);
    if c.isIgnoreFile(e.url) || !s.IsWorkspace(e.url) then t
    else if e.kind == Deleted then Remove(t, e.url)
    else
      match c.ReadNamed(e.fs, e.url)
      case None => t
      case Some(text) => Reread(t, e.url, text)
  }

  function OnFileEvents(c: Config, s: Store, es: seq<FileEvent>): Store
    decreases es
  {
    if es == [] then s else OnFileEvents(c, OnFileEvent(c, s, es[0]), es[1..])
  }

  function RemoveWorkspace(s: Store, url: Option<Url>): Store {
    if url.Some? && s.IsWorkspace(url.value) then Remove(s, url.value) else s
  }

  /** Renamed and deleted files; a URI that does not parse is None. */
  function OnFilesGone(s: Store, urls: seq<Option<Url>>): Store
    decreases urls
  {
    if urls == [] then s else OnFilesGone(RemoveWorkspace(s, urls[0]), urls[1..])
  }

  // ------------------------------------------------------------ folders and switches

  function AddRoots(roots: map<Url, Path>, added: seq<(Url, Option<Path>)>): map<Url, Path>
    decreases added
  {
    if added == [] then roots
    else AddRoots(if added[0].1.Some? then roots[added[0].0 := added[0].1.value] else roots, added[1..])
  }

  /** Removed folders drop the Workspace documents under the roots they had. */
  function OnFolders(c: Config, s: Store, removed: set<Url>, added: seq<(Url, Option<Path>)>): Store {
    var gone := set u | u in removed && u in s.roots :: s.roots[u];
    var left := s.(walk := CLEARED, roots := s.roots - removed);
    var kept := Retain(left, KeepOutside(c, gone));
    kept.(roots := AddRoots(kept.roots, added))
  }

  function KeepOutside(c: Config, roots: set<Path>): (Url, DocumentEntry) -> bool {
    (url, entry: DocumentEntry) => entry.origin == Open || !InRoots(c, url, roots)
  }

  function KeepOpen(): (Url, DocumentEntry) -> bool { (url, entry: DocumentEntry) => entry.origin == Open }

  function SetEnabled(s: Store, on: bool): Store {
    var t := s.(enabled := on);
    if s.enabled && !on then Retain(t, KeepOpen()) else t
  }

  /** A switch also touches the walk list: on makes it stale, off drops it. */
  function ApplyEnabled(s: Store, on: bool): Store {
    var t := SetEnabled(s, on);
    if s.enabled == on then t
    else if on then t.(walk := t.walk.Invalidated())
    else t.(walk := CLEARED)
  }

  function StoreTokens(s: Store, url: Url, cached: Delta.CachedSemanticTokens): Store {
    s.(tokens := s.tokens[url := cached])
  }

  function CachedFor(s: Store, url: Url): Option<Delta.CachedSemanticTokens> {
    if url in s.tokens then Some(s.tokens[url]) else None
  }

  /** A token response for a document: what is sent, and the store with the URL's slot kept. */
  function Respond(c: Config, s: Store, url: Url, text: string, r: Delta.Response): (Store, Delta.Response) {
    var (sent, slot) := Delta.Outgoing(text, c.encoding, CachedFor(s, url), r);
    (if slot.Some? then StoreTokens(s, url, slot.value) else s, sent)
  }

  // ------------------------------------------------------------ refresh

  /** The disk when a file's stamp is probed, and when the file is read. */
  datatype Moment = Moment(probe: FileSystem, read: FileSystem)

  predicate StampUnchanged(entry: Option<Stamp>, disk: Option<Stamp>) { entry.Some? && entry == disk }

  /** Whether a load trusts the stamp and does not read. */
  predicate Skips(s: Store, w: WalkedFile, m: Moment) {
    s.IsWorkspace(w.url) && StampUnchanged(s.docs[w.url].stamp, m.probe.StampOf(w.url))
  }

  /** One load: stamped with the probe that came before its read. */
  function Load(s: Store, w: WalkedFile, m: Moment): (Store, bool) {
    if Skips(s, w, m) then (s, true)
    else
      match m.read.Read(w.url)
      case None => (s, false)
      case Some(text) =>
        var t := Insert(s, w.url, text, 0, w.language, Workspace);
        (t.(docs := t.docs[w.url := t.docs[w.url].(stamp := m.probe.StampOf(w.url))]), true)
  }

  /** The loads in list order from moment `k`, with the URLs that are in place afterwards. */
  function LoadAll(s: Store, loads: seq<WalkedFile>, at: nat -> Moment, k: nat): (Store, seq<Url>)
    decreases loads
  {
    if loads == [] then (s, [])
    else
      var (t, ok) := Load(s, loads[0], at(k));
      var (u, urls) := LoadAll(t, loads[1..], at, k + 1);
      (u, if ok then [loads[0].url] + urls else urls)
  }

  /** The walked files whose documents are open, or are not. */
  function Pick(s: Store, walked: seq<WalkedFile>, open: bool): seq<WalkedFile> {
    if walked == [] then []
    else if s.IsOpen(walked[0].url) == open then [walked[0]] + Pick(s, walked[1..], open)
    else Pick(s, walked[1..], open)
  }

  function UrlsOf(files: seq<WalkedFile>): (r: seq<Url>)
    ensures |r| == |files|
  {
    seq(|files|, i requires 0 <= i < |files| => files[i].url)
  }

  /** Walked files: the served list, or a fresh walk, which a registered client's cache keeps. */
  function Walked(c: Config, s: Store, fs: FileSystem): Option<seq<WalkedFile>> {
    if s.registered && s.walk.GetValid().Some? then s.walk.GetValid()
    else c.walk(fs.files.Keys, fs.rules, s.roots.Values)
  }

  function AfterWalk(c: Config, s: Store, fs: FileSystem): Store {
    if s.registered && s.walk.GetValid().None? && Walked(c, s, fs).Some?
    then s.(walk := WalkList(Walked(c, s, fs), false))
    else s
  }

  /** The store after a refresh and the URLs it reports, or None when the walk failed. */
  function Refresh(c: Config, s: Store, fs: FileSystem, at: nat -> Moment): (Store, Option<set<Url>>) {
    if !s.DiagnosticsOn() || s.roots == map[] then (s, Some(s.docs.Keys))
    else
      match Walked(c, s, fs)
      case None => (s, None)
      case Some(walked) =>
        var t := AfterWalk(c, s, fs);
        var (loaded, urls) := LoadAll(t, Pick(t, walked, false), at, 0);
        var all := SetOf(UrlsOf(Pick(t, walked, true)) + urls);
        (Retain(loaded, KeepAfterRefresh(c, s.roots.Values, all)), Some(all))
  }

  function KeepAfterRefresh(c: Config, roots: set<Path>, urls: set<Url>): (Url, DocumentEntry) -> bool {
    (url, entry: DocumentEntry) => entry.origin == Open || !InRoots(c, url, roots) || url in urls
  }

  function SetOf(urls: seq<Url>): set<Url> { set u | u in urls }
}
