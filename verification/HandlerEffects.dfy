/**
 What each handler does to each URL, said without the handler: which documents it drops, keeps or
 installs, with what contents, which token streams go, and what happens to the walk list and the roots.
 */
module HandlerEffects {
  import opened Wrappers
  import opened StoreModel
  import opened StoreRuns
  import Sync = DocumentSync

  // ------------------------------------------------------------ frames

  ghost predicate SettingsKept(s: Store, t: Store) {
    s.roots == t.roots && s.enabled == t.enabled && s.supported == t.supported && s.registered == t.registered
  }

  /** A URL's document and token stream are as they were. */
  ghost predicate UrlKept(s: Store, t: Store, url: Url) {
    && (url in t.docs <==> url in s.docs) && (url in s.docs ==> t.docs[url] == s.docs[url])
    && (url in t.tokens <==> url in s.tokens) && (url in s.tokens ==> t.tokens[url] == s.tokens[url])
  }

  ghost predicate UrlGone(t: Store, url: Url) { url !in t.docs && url !in t.tokens }

  /** One URL's document and token stream are all that changed. */
  ghost predicate OnlyTouches(s: Store, t: Store, url: Url) {
    SettingsKept(s, t) && s.walk == t.walk && forall u :: u != url ==> UrlKept(s, t, u)
  }

  /** A URL holds a fresh document, with no stamp and no token stream. */
  ghost predicate Installed(t: Store, url: Url, language: string, version: int, text: string, origin: Origin) {
    url in t.docs && url !in t.tokens && t.docs[url] == DocumentEntry(Document(language, version, text), origin, None)
  }

  // ------------------------------------------------------------ paths

  /** A URL is in the roots when its path goes on, component by component, from one of them. */
  lemma InRootsIff(c: Config, url: Url, roots: set<Path>)
    ensures InRoots(c, url, roots) <==>
            c.pathOf(url).Some? && exists root, tail: Path :: root in roots && c.pathOf(url).value == root + tail
  {
    if InRoots(c, url, roots) {
      var path := c.pathOf(url).value;
      var root :| root in roots && root <= path;
      assert path == root + path[|root|..];
    }
    if c.pathOf(url).Some? && exists root, tail: Path :: root in roots && c.pathOf(url).value == root + tail {
      var root, tail: Path :| root in roots && c.pathOf(url).value == root + tail;
      assert root <= c.pathOf(url).value;
    }
  }

  /** The roots after an addition: the last one with a path counts for its URL, others stay. */
  lemma {:induction false} AddedRoots(roots: map<Url, Path>, added: seq<(Url, Option<Path>)>, url: Url)
    ensures var after := AddRoots(roots, added);
            match LastAdded(added, url)
            case Some(path) => url in after && after[url] == path
            case None => (url in after <==> url in roots) && (url in roots ==> after[url] == roots[url])
    decreases added
  {
    if added != [] {
      AddedRoots(if added[0].1.Some? then roots[added[0].0 := added[0].1.value] else roots, added[1..], url);
    }
  }

  function LastAdded(added: seq<(Url, Option<Path>)>, url: Url): Option<Path> {
    if added == [] then None
    else if LastAdded(added[1..], url).Some? then LastAdded(added[1..], url)
    else if added[0].0 == url then added[0].1
    else None
  }

  // ------------------------------------------------------------ the editor

  /** An open installs what the client sent, as the editor's, and touches nothing else. */
  lemma OpenInstalls(s: Store, url: Url, text: string, version: int, language: string)
    ensures var t := OnOpen(s, url, text, version, language);
            Installed(t, url, language, version, text, Open) && OnlyTouches(s, t, url)
  {
  }

  /**
   A closed document stays, as the workspace's with the text of the file its path names, exactly when
   diagnostics are supported and on, a matcher claims it, it is in the roots and that file is readable.
   */
  lemma CloseDecides(c: Config, s: Store, fs: FileSystem, url: Url)
    ensures var t := OnClose(c, s, fs, url);
            && OnlyTouches(s, t, url)
            && (url !in s.docs ==> t == s)
            && (url in s.docs ==>
                  if s.supported && s.enabled && c.matches(url) && InRoots(c, url, s.roots.Values) &&
                     fs.Read(c.named(url)).Some?
                  then Installed(t, url, s.docs[url].document.language, 0, fs.Read(c.named(url)).value, Workspace)
                  else UrlGone(t, url))
  {
  }

  /** A change touches its own tracked document only ... */
  lemma ChangeTouchesOnly(c: Config, s: Store, fs: FileSystem, url: Url, version: int,
                          changes: seq<Sync.ContentChange>)
    ensures OnlyTouches(s, OnChange(c, s, fs, url, version, changes), url)
    ensures url !in s.docs ==> OnChange(c, s, fs, url, version, changes) == s
  {
  }

  /** ... which keeps its stamp and its stream, unless a change fails and the disk's text is installed afresh. */
  lemma ChangeRecovers(c: Config, s: Store, fs: FileSystem, url: Url, version: int,
                       changes: seq<Sync.ContentChange>)
    requires url in s.docs
    ensures var t := OnChange(c, s, fs, url, version, changes);
            if !Sync.Applies(s.docs[url].document.text, changes, c.encoding) && fs.Read(c.named(url)).Some?
            then Installed(t, url, s.docs[url].document.language, version, fs.Read(c.named(url)).value, Open)
            else url in t.docs && t.docs[url].stamp == s.docs[url].stamp && t.tokens == s.tokens
  {
    Sync.FailureKeepsPrefix(s.docs[url].document.text, changes, c.encoding);
  }

  // ------------------------------------------------------------ files gone

  /** Renamed and deleted files: exactly the named workspace documents go. */
  lemma {:induction false} FilesGonePerUrl(s: Store, urls: seq<Option<Url>>, url: Url)
    ensures var t := OnFilesGone(s, urls);
            && SettingsKept(s, t) && t.walk == s.walk
            && if s.IsWorkspace(url) && Some(url) in urls then UrlGone(t, url) else UrlKept(s, t, url)
    decreases urls
  {
    if urls != [] {
      FilesGonePerUrl(RemoveWorkspace(s, urls[0]), urls[1..], url);
      assert Some(url) in urls <==> urls[0] == Some(url) || Some(url) in urls[1..];
    }
  }

  // ------------------------------------------------------------ folders and switches

  /** What a retention does to a URL. */
  lemma RetainPerUrl(s: Store, keep: (Url, DocumentEntry) -> bool, url: Url)
    ensures var t := Retain(s, keep);
            if url in s.docs && !keep(url, s.docs[url]) then UrlGone(t, url) else UrlKept(s, t, url)
  {
  }

  /** A folder change drops exactly the workspace documents in the roots that the removed folders had, whatever is added. */
  lemma FoldersPerUrl(c: Config, s: Store, removed: set<Url>, added: seq<(Url, Option<Path>)>, url: Url)
    ensures var t := OnFolders(c, s, removed, added);
            if s.IsWorkspace(url) && InRemoved(c, s, removed, url) then UrlGone(t, url) else UrlKept(s, t, url)
  {
    var gone := set u | u in removed && u in s.roots :: s.roots[u];
    RetainPerUrl(s.(walk := CLEARED, roots := s.roots - removed), KeepOutside(c, gone), url);
    InRemovedIff(c, s, removed, url);
  }

  lemma InRemovedIff(c: Config, s: Store, removed: set<Url>, url: Url)
    ensures InRemoved(c, s, removed, url) <==> InRoots(c, url, set u | u in removed && u in s.roots :: s.roots[u])
  {
    var gone := set u | u in removed && u in s.roots :: s.roots[u];
    if InRemoved(c, s, removed, url) {
      var u :| u in removed && u in s.roots && c.pathOf(url).Some? && s.roots[u] <= c.pathOf(url).value;
      assert s.roots[u] in gone;
    }
    if InRoots(c, url, gone) {
      var root :| root in gone && root <= c.pathOf(url).value;
      var u :| u in removed && u in s.roots && s.roots[u] == root;
    }
  }

  /** It drops the walk list too, takes the removed roots out before it adds the new ones, and switches nothing. */
  lemma FoldersMove(c: Config, s: Store, removed: set<Url>, added: seq<(Url, Option<Path>)>, url: Url)
    ensures var t := OnFolders(c, s, removed, added);
            && t.enabled == s.enabled && t.supported == s.supported && t.registered == s.registered
            && t.walk.entries.None? && t.walk.GetValid().None?
            && (url in t.roots <==> LastAdded(added, url).Some? || (url in s.roots && url !in removed))
            && (url in t.roots ==>
                  t.roots[url] == if LastAdded(added, url).Some? then LastAdded(added, url).value else s.roots[url])
  {
    AddedRoots(s.roots - removed, added, url);
  }

  /** A URL's path goes on from the root of a removed folder. */
  ghost predicate InRemoved(c: Config, s: Store, removed: set<Url>, url: Url) {
    exists u :: u in removed && u in s.roots && c.pathOf(url).Some? && s.roots[u] <= c.pathOf(url).value
  }

  /**
   Switching off drops exactly the workspace documents and the walk list; switching on makes the list
   stale and drops nothing; a switch to where it stood does nothing.
   */
  lemma SwitchPerUrl(s: Store, on: bool, url: Url)
    ensures var t := ApplyEnabled(s, on);
            && t.enabled == on && t.roots == s.roots && t.supported == s.supported && t.registered == s.registered
            && (s.enabled == on ==> t == s)
            && (s.enabled && !on ==> t.walk.entries.None? && t.walk.GetValid().None?)
            && (!s.enabled && on ==> t.walk.entries == s.walk.entries && t.walk.GetValid().None?)
            && if s.enabled && !on && s.IsWorkspace(url) then UrlGone(t, url) else UrlKept(s, t, url)
  {
    if s.enabled && !on {
      RetainPerUrl(s.(enabled := on), KeepOpen(), url);
    }
  }

  // ------------------------------------------------------------ watched files

  /** An event about a URL's own file, which is no ignore file. */
  predicate Own(c: Config, e: FileEvent, url: Url) { e.url == url && !c.isIgnoreFile(url) }

  /** The text the last own event read, among those that changed or created the file and could read it. */
  function LastRead(c: Config, es: seq<FileEvent>, url: Url): Option<string> {
    if es == [] then None
    else if LastRead(c, es[1..], url).Some? then LastRead(c, es[1..], url)
    else if Own(c, es[0], url) && es[0].kind != Deleted then es[0].fs.Read(c.named(url))
    else None
  }

  ghost predicate SomeDeleted(c: Config, es: seq<FileEvent>, url: Url) {
    exists i :: 0 <= i < |es| && Own(c, es[i], url) && es[i].kind == Deleted
  }

  lemma DeletedSplits(c: Config, es: seq<FileEvent>, url: Url)
    requires es != []
    ensures SomeDeleted(c, es, url) <==> (Own(c, es[0], url) && es[0].kind == Deleted) || SomeDeleted(c, es[1..], url)
  {
    if SomeDeleted(c, es, url) {
      var i :| 0 <= i < |es| && Own(c, es[i], url) && es[i].kind == Deleted;
      if i > 0 {
        assert es[1..][i - 1] == es[i];
      }
    }
    if SomeDeleted(c, es[1..], url) {
      var i :| 0 <= i < |es| - 1 && Own(c, es[1..][i], url) && es[1..][i].kind == Deleted;
      assert es[i + 1] == es[1..][i];
    }
  }

  /** What a batch of events leaves of a workspace document: nothing, the text read last, or what it was. */
  ghost predicate AfterEvents(c: Config, s: Store, t: Store, es: seq<FileEvent>, url: Url) {
    if !s.IsWorkspace(url) then UrlKept(s, t, url)
    else if SomeDeleted(c, es, url) then UrlGone(t, url)
    else
      match LastRead(c, es, url)
      case None => UrlKept(s, t, url)
      case Some(text) => Installed(t, url, s.docs[url].document.language, 0, text, Workspace)
  }

  lemma InsertPerUrl(s: Store, t: Store, at: Url, text: string, url: Url)
    requires t.docs == s.docs && t.tokens == s.tokens && s.Tracks(at)
    ensures var u := Reread(t, at, text);
            if url == at then Installed(u, url, s.docs[at].document.language, 0, text, Workspace) else UrlKept(s, u, url)
  {
  }

  lemma RemovePerUrl(s: Store, t: Store, at: Url, url: Url)
    requires t.docs == s.docs && t.tokens == s.tokens
    ensures if url == at then UrlGone(Remove(t, at), url) else UrlKept(s, Remove(t, at), url)
  {
  }

  lemma OneEventPerUrl(c: Config, s: Store, e: FileEvent, url: Url)
    ensures var t := OnFileEvent(c, s, e);
            && SettingsKept(s, t)
            && if !s.IsWorkspace(url) || !Own(c, e, url) then UrlKept(s, t, url)
               else if e.kind == Deleted then UrlGone(t, url)
               else if e.fs.Read(c.named(url)).Some?
               then Installed(t, url, s.docs[url].document.language, 0, e.fs.Read(c.named(url)).value, Workspace)
               else UrlKept(s, t, url)
  {
    var t := Noticed(c, s, e);
    NoticedOnlyWalk(c, s, e);
    if s.IsWorkspace(e.url) && !c.isIgnoreFile(e.url) {
      RemovePerUrl(s, t, e.url, url);
      if e.kind != Deleted && e.fs.Read(c.named(e.url)).Some? {
        InsertPerUrl(s, t, e.url, e.fs.Read(c.named(e.url)).value, url);
      }
    }
  }

  /**
   After any events, each URL stands as its own events say: a workspace document is dropped when one
   deleted its file, else holds the text the last readable one read, afresh, else is as it was. Open
   documents, untracked URLs and ignore files stay.
   */
  lemma {:induction false} FileEventsPerUrl(c: Config, s: Store, es: seq<FileEvent>, url: Url)
    ensures SettingsKept(s, OnFileEvents(c, s, es)) && AfterEvents(c, s, OnFileEvents(c, s, es), es, url)
    decreases es
  {
    if es != [] {
      OneEventPerUrl(c, s, es[0], url);
      FileEventsPerUrl(c, OnFileEvent(c, s, es[0]), es[1..], url);
      DeletedSplits(c, es, url);
    }
  }

  /** An event that may change which files a walk finds: one for an ignore file, a creation or a deletion. */
  ghost predicate SomeMembership(c: Config, es: seq<FileEvent>) {
    exists i :: 0 <= i < |es| && (c.isIgnoreFile(es[i].url) || es[i].kind == Created || es[i].kind == Deleted)
  }

  /** The walk list stays for the next store, but is served no more after such an event, and only then. */
  lemma {:induction false} FileEventsMarkWalk(c: Config, s: Store, es: seq<FileEvent>)
    ensures var t := OnFileEvents(c, s, es);
            && t.walk.entries == s.walk.entries
            && t.walk.dirty == (s.walk.dirty || SomeMembership(c, es))
            && t.walk.GetValid() == if SomeMembership(c, es) then None else s.walk.GetValid()
    decreases es
  {
    if es != [] {
      NoticedOnlyWalk(c, s, es[0]);
      FileEventsMarkWalk(c, OnFileEvent(c, s, es[0]), es[1..]);
      MembershipSplits(c, es);
      OneEventWalk(c, s, es[0]);
    }
  }

  lemma OneEventWalk(c: Config, s: Store, e: FileEvent)
    ensures OnFileEvent(c, s, e).walk == Noticed(c, s, e).walk
    ensures Noticed(c, s, e).walk.entries == s.walk.entries
    ensures Noticed(c, s, e).walk.dirty ==
            (s.walk.dirty || c.isIgnoreFile(e.url) || e.kind == Created || e.kind == Deleted)
  {
    FileEventActs(c, s, e);
  }

  lemma MembershipSplits(c: Config, es: seq<FileEvent>)
    requires es != []
    ensures SomeMembership(c, es) <==>
            c.isIgnoreFile(es[0].url) || es[0].kind == Created || es[0].kind == Deleted || SomeMembership(c, es[1..])
  {
    if SomeMembership(c, es) {
      var i :| 0 <= i < |es| && (c.isIgnoreFile(es[i].url) || es[i].kind == Created || es[i].kind == Deleted);
      if i > 0 {
        assert es[1..][i - 1] == es[i];
      }
    }
    if SomeMembership(c, es[1..]) {
      var i :| 0 <= i < |es| - 1 &&
               (c.isIgnoreFile(es[1..][i].url) || es[1..][i].kind == Created || es[1..][i].kind == Deleted);
      assert es[i + 1] == es[1..][i];
    }
  }

  // ------------------------------------------------------------ refresh

  /**
   A load trusts a workspace document whose stamp is the file's, and changes nothing; else it reads, and
   installs the text under the stamp probed before, or reports a file it cannot read.
   */
  lemma LoadInstalls(s: Store, w: WalkedFile, m: Moment)
    ensures var (t, ok) := Load(s, w, m);
            && SettingsKept(s, t) && t.walk == s.walk
            && (forall u :: u != w.url ==> UrlKept(s, t, u))
            && if s.IsWorkspace(w.url) && s.docs[w.url].stamp.Some? && s.docs[w.url].stamp == m.probe.StampOf(w.url)
               then ok && t == s
               else
                 && ok == m.read.Read(w.url).Some?
                 && (!ok ==> t == s)
                 && (ok ==>
                       && w.url in t.docs && w.url !in t.tokens
                       && t.docs[w.url] == DocumentEntry(Document(w.language, 0, m.read.Read(w.url).value), Workspace,
                                                         m.probe.StampOf(w.url)))
  {
  }

  /** Loading a stamped file again from a disk that did not move reads nothing and changes nothing. */
  lemma LoadTwiceSkips(s: Store, w: WalkedFile, fs: FileSystem)
    requires fs.StampOf(w.url).Some? && fs.Read(w.url).Some?
    ensures var t := Load(s, w, Moment(fs, fs)).0;
            Skips(t, w, Moment(fs, fs)) && Load(t, w, Moment(fs, fs)) == (t, true)
  {
  }

  /** With diagnostics off or unsupported, or without roots, a refresh reports every tracked URL and does nothing. */
  lemma IdleRefreshReportsAll(c: Config, s: Store, fs: FileSystem, at: nat -> Moment)
    requires !s.supported || !s.enabled || s.roots == map[]
    ensures Refresh(c, s, fs, at).0 == s
    ensures Refresh(c, s, fs, at).1.Some? && forall url :: url in Refresh(c, s, fs, at).1.value <==> url in s.docs
  {
  }

  /** A refresh whose walk fails leaves everything and reports nothing. */
  lemma FailedWalkLeavesAll(c: Config, s: Store, fs: FileSystem, at: nat -> Moment)
    requires s.supported && s.enabled && s.roots != map[]
    requires !s.registered || s.walk.dirty || s.walk.entries.None?
    requires c.walk(fs.files.Keys, fs.rules, s.roots.Values).None?
    ensures Refresh(c, s, fs, at) == (s, None)
  {
  }

  lemma {:induction false} LoadsKeepSettings(s: Store, loads: seq<WalkedFile>, at: nat -> Moment, k: nat)
    ensures SettingsKept(s, LoadAll(s, loads, at, k).0) && LoadAll(s, loads, at, k).0.walk == s.walk
    decreases loads
  {
    if loads != [] {
      LoadInstalls(s, loads[0], at(k));
      LoadsKeepSettings(Load(s, loads[0], at(k)).0, loads[1..], at, k + 1);
    }
  }

  /**
   A client with watchers is served the list it has while that is valid, whatever the disk, and keeps
   the list of a fresh walk for the next refresh; a client without watchers walks and keeps nothing.
   */
  lemma RefreshKeepsList(c: Config, s: Store, fs: FileSystem, at: nat -> Moment)
    requires s.supported && s.enabled && s.roots != map[]
    ensures var served := s.registered && !s.walk.dirty && s.walk.entries.Some?;
            var walked := if served then s.walk.entries else c.walk(fs.files.Keys, fs.rules, s.roots.Values);
            var t := Refresh(c, s, fs, at).0;
            && Walked(c, s, fs) == walked && SettingsKept(s, t)
            && (s.registered && walked.Some? ==> t.walk.GetValid() == walked)
            && (!s.registered || walked.None? ==> t.walk == s.walk)
  {
    if Walked(c, s, fs).Some? {
      var t := AfterWalk(c, s, fs);
      LoadsKeepSettings(t, Pick(t, Walked(c, s, fs).value, false), at, 0);
    }
  }
}
