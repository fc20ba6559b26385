/** The document store as it is kept: shared fields that each handler updates. */
module StoreState {
  import opened Wrappers
  import opened StoreModel
  import opened UrlOrder
  import Sync = DocumentSync
  import Delta = TokenDelta

  /** The workspace file list and its dirty flag. */
  class WalkCache {
    var entries: Option<seq<WalkedFile>>
    var dirty: bool

    function View(): WalkList reads this { WalkList(entries, dirty) }

    constructor ()
      ensures View() == WalkList(None, false)
    {
      entries, dirty := None, false;
    }

    /** The cached list when it may be served: present and not dirty. */
    method GetValid() returns (r: Option<seq<WalkedFile>>)
      ensures r == View().GetValid()
    {
      r := if entries.Some? && !dirty then entries else None;
    }

    method Store(walked: seq<WalkedFile>)
      modifies this
      ensures View() == WalkList(Some(walked), false)
    {
      entries, dirty := Some(walked), false;
    }

    method Invalidate()
      modifies this
      ensures View() == old(View()).Invalidated()
    {
      dirty := true;
    }

    method Clear()
      modifies this
      ensures View() == CLEARED
    {
      entries, dirty := None, true;
    }
  }

  class ServerState {
    const config: Config
    const supported: bool
    const walkCache: WalkCache
    var documents: map<Url, DocumentEntry>
    var tokens: map<Url, Delta.CachedSemanticTokens>
    var roots: map<Url, Path>
    var enabled: bool
    var registered: bool

    ghost function View(): Store reads this, walkCache {
      Store(documents, tokens, roots, enabled, supported, registered, walkCache.View())
    }

    constructor (config: Config, supported: bool, enabled: bool)
      ensures fresh(walkCache) && this.config == config
      ensures View() == Store(map[], map[], map[], enabled, supported, false, WalkList(None, false))
    {
      this.config, this.supported, this.enabled, registered := config, supported, enabled, false;
      documents, tokens, roots := map[], map[], map[];
      walkCache := new WalkCache();
    }

    // ---------------------------------------------------------- elementary changes

    method InsertDocument(url: Url, text: string, version: int, language: string, origin: Origin)
      modifies this`documents, this`tokens
      ensures View() == Insert(old(View()), url, text, version, language, origin)
    {
      documents := documents[url := DocumentEntry(Document(language, version, text), origin, None)];
      tokens := tokens - {url};
    }

    method RemoveDocument(url: Url)
      modifies this`documents, this`tokens
      ensures View() == Remove(old(View()), url)
    {
      documents := documents - {url};
      tokens := tokens - {url};
    }

    /** Retains documents, then evicts the token streams of the dropped ones one by one. */
    method RetainDocuments(keep: (Url, DocumentEntry) -> bool)
      modifies this`documents, this`tokens
      ensures View() == Retain(old(View()), keep)
    {
      ghost var before, cached := documents, tokens;
      var kept := map url | url in documents && keep(url, documents[url]) :: documents[url];
      var dropped := documents.Keys - kept.Keys;
      documents := kept;
      while dropped != {}
        invariant dropped <= before.Keys - kept.Keys
        invariant documents == kept && tokens == cached - (before.Keys - kept.Keys - dropped)
      {
        var url :| url in dropped;
        tokens := tokens - {url};
        dropped := dropped - {url};
      }
    }

    // ---------------------------------------------------------- editor notifications

    method HandleOpen(url: Url, text: string, version: int, language: string)
      modifies this`documents, this`tokens
      ensures View() == OnOpen(old(View()), url, text, version, language)
    {
      InsertDocument(url, text, version, language, Open);
    }

    method HandleClose(fs: FileSystem, url: Url)
      modifies this`documents, this`tokens
      ensures View() == OnClose(config, old(View()), fs, url)
    {
      if url !in documents {
        return;
      }
      var language := documents[url].document.language;
      var keepAsWorkspace := supported && enabled && config.matches(url) && InRoots(config, url, roots.Values);
      if !keepAsWorkspace {
        RemoveDocument(url);
        return;
      }
      match config.ReadNamed(fs, url)
      case Some(text) => InsertDocument(url, text, 0, language, Workspace);
      case None => RemoveDocument(url);
    }

    /** Folds the batch into the text, installs the result, and recovers from a failed change. */
    method HandleChange(fs: FileSystem, url: Url, version: int, changes: seq<Sync.ContentChange>)
      modifies this`documents, this`tokens
      ensures View() == OnChange(config, old(View()), fs, url, version, changes)
    {
      if url !in documents {
        return;
      }
      var base := documents[url];
      var text, failed := Sync.ApplyBatch(base.document.text, changes, config.encoding);
      documents := documents[url := base.(document := Document(base.document.language, version, text), origin := Open)];
      if failed {
        match config.ReadNamed(fs, url)
        case Some(disk) => InsertDocument(url, disk, version, base.document.language, Open);
        case None =>
      }
    }

    method HandleSave(fs: FileSystem, url: Url, sent: Option<string>)
      modifies this`documents, this`tokens
      ensures View() == OnSave(config, old(View()), fs, url, sent)
    {
      if url !in documents {
        return;
      }
      var text := if sent.Some? then sent else config.ReadNamed(fs, url);
      if text.None? {
        RemoveDocument(url);
        return;
      }
      var base := documents[url];
      documents := documents[url := base.(document := base.document.(text := text.value))];
      tokens := tokens - {url};
    }

    // ---------------------------------------------------------- file events

    method HandleFileEvent(e: FileEvent)
      modifies this`documents, this`tokens, walkCache
      ensures View() == OnFileEvent(config, old(View()), e)
    {
      if config.isIgnoreFile(e.url) {
        walkCache.Invalidate();
        return;
      }
      if e.kind == Created || e.kind == Deleted {
        walkCache.Invalidate();
      }
      if e.url !in documents || documents[e.url].origin == Open {
        return;
      }
      if e.kind == Deleted {
        RemoveDocument(e.url);
        return;
      }
      match config.ReadNamed(e.fs, e.url)
      case Some(text) => InsertDocument(e.url, text, 0, documents[e.url].document.language, Workspace);
      case None =>
    }

    method HandleWatchedFiles(es: seq<FileEvent>)
      modifies this`documents, this`tokens, walkCache
      ensures View() == OnFileEvents(config, old(View()), es)
    {
      for i := 0 to |es|
        invariant OnFileEvents(config, View(), es[i..]) == OnFileEvents(config, old(View()), es)
      {
        assert es[i..][1..] == es[i + 1..];
        HandleFileEvent(es[i]);
      }
    }

    method HandleFilesGone(urls: seq<Option<Url>>)
      modifies this`documents, this`tokens
      ensures View() == OnFilesGone(old(View()), urls)
    {
      for i := 0 to |urls|
        invariant OnFilesGone(View(), urls[i..]) == OnFilesGone(old(View()), urls)
      {
        assert urls[i..][1..] == urls[i + 1..];
        if urls[i].Some? && urls[i].value in documents && documents[urls[i].value].origin == Workspace {
          RemoveDocument(urls[i].value);
        }
      }
    }

    // ---------------------------------------------------------- folders and switches

    method HandleFoldersChange(removed: seq<Url>, added: seq<(Url, Option<Path>)>)
      modifies this`documents, this`tokens, this`roots, walkCache
      ensures View() == OnFolders(config, old(View()), SetOf(removed), added)
    {
      walkCache.Clear();
      ghost var was := roots;
      var gone: set<Path> := {};
      for i := 0 to |removed|
        invariant walkCache.View() == CLEARED
        invariant documents == old(documents) && tokens == old(tokens)
        invariant roots == was - SetOf(removed[..i])
        invariant gone == set u | u in SetOf(removed[..i]) && u in was :: was[u]
      {
        assert SetOf(removed[..i + 1]) == SetOf(removed[..i]) + {removed[i]};
        if removed[i] in roots {
          gone := gone + {roots[removed[i]]};
          roots := roots - {removed[i]};
        }
      }
      assert removed[..|removed|] == removed;
      if gone != {} {
        RetainDocuments(KeepOutside(config, gone));
      }
      KeepOutsideNothing(config, old(View()).(walk := CLEARED, roots := roots));
      ghost var docs, cached := documents, tokens;
      for i := 0 to |added|
        invariant walkCache.View() == CLEARED && documents == docs && tokens == cached
        invariant AddRoots(roots, added[i..]) == AddRoots(was - SetOf(removed), added)
      {
        assert added[i..][1..] == added[i + 1..];
        if added[i].1.Some? {
          roots := roots[added[i].0 := added[i].1.value];
        }
      }
    }

    /** Switches diagnostics; off drops what only the workspace tracked. */
    method SetDiagnosticsEnabled(on: bool) returns (changed: bool)
      modifies this`documents, this`tokens, this`enabled
      ensures View() == SetEnabled(old(View()), on) && changed == (old(enabled) != on)
    {
      changed := enabled != on;
      enabled := on;
      if changed && !on {
        RetainDocuments(KeepOpen());
      }
    }

    method ApplyDiagnosticsEnabled(on: bool)
      modifies this`documents, this`tokens, this`enabled, walkCache
      ensures View() == ApplyEnabled(old(View()), on)
    {
      var changed := SetDiagnosticsEnabled(on);
      if changed && on {
        walkCache.Invalidate();
      }
      if changed && !on {
        walkCache.Clear();
      }
    }

    method StoreSemanticTokens(url: Url, cached: Delta.CachedSemanticTokens)
      modifies this`tokens
      ensures View() == StoreTokens(old(View()), url, cached)
    {
      tokens := tokens[url := cached];
    }

    /** Converts a token response for a document and keeps its cache slot. */
    method RespondWithTokens(url: Url, text: string, r: Delta.Response) returns (sent: Delta.Response)
      modifies this`tokens
      ensures (View(), sent) == Respond(config, old(View()), url, text, r)
    {
      var cached := if url in tokens then Some(tokens[url]) else None;
      var slot;
      sent, slot := Delta.ModifyOutgoingDeltaResult(text, config.encoding, cached, r);
      if slot.Some? {
        StoreSemanticTokens(url, slot.value);
      }
    }

    // ---------------------------------------------------------- refresh

    /** Loads one file: probes its stamp, skips an unchanged one, else reads, installs and stamps it. */
    method LoadDocument(w: WalkedFile, m: Moment) returns (ok: bool)
      modifies this`documents, this`tokens
      ensures (View(), ok) == Load(old(View()), w, m)
    {
      var stamp := m.probe.StampOf(w.url);
      if w.url in documents && documents[w.url].origin == Workspace && StampUnchanged(documents[w.url].stamp, stamp) {
        return true;
      }
      match m.read.Read(w.url)
      case None => ok := false;
      case Some(text) =>
        InsertDocument(w.url, text, 0, w.language, Workspace);
        documents := documents[w.url := documents[w.url].(stamp := stamp)];
        ok := true;
    }

    method LoadDocuments(loads: seq<WalkedFile>, at: nat -> Moment) returns (urls: seq<Url>)
      modifies this`documents, this`tokens
      ensures (View(), urls) == LoadAll(old(View()), loads, at, 0)
    {
      urls := [];
      ghost var all := LoadAll(View(), loads, at, 0);
      assert loads[0..] == loads && [] + all.1 == all.1;
      for i := 0 to |loads|
        invariant LoadAll(View(), loads[i..], at, i).0 == all.0
        invariant urls + LoadAll(View(), loads[i..], at, i).1 == all.1
      {
        assert loads[i..][1..] == loads[i + 1..];
        ghost var rest := LoadAll(View(), loads[i..], at, i).1;
        var ok := LoadDocument(loads[i], at(i));
        ghost var left := LoadAll(View(), loads[i + 1..], at, i + 1).1;
        assert rest == if ok then [loads[i].url] + left else left;
        if ok {
          urls := urls + [loads[i].url];
        }
      }
      assert loads[|loads|..] == [] && urls + [] == urls;
    }

    /** Open walked files are reportable as they are; the others are to be loaded. */
    method Partition(walked: seq<WalkedFile>) returns (open: seq<Url>, loads: seq<WalkedFile>)
      ensures open == UrlsOf(Pick(View(), walked, true)) && loads == Pick(View(), walked, false)
    {
      open, loads := [], [];
      for i := 0 to |walked|
        invariant open + UrlsOf(Pick(View(), walked[i..], true)) == UrlsOf(Pick(View(), walked, true))
        invariant loads + Pick(View(), walked[i..], false) == Pick(View(), walked, false)
      {
        assert walked[i..][1..] == walked[i + 1..];
        if walked[i].url in documents && documents[walked[i].url].origin == Open {
          open := open + [walked[i].url];
        } else {
          loads := loads + [walked[i]];
        }
      }
    }

    /** The walk of a refresh, served from the cache when the client's watchers keep it fresh. */
    method WalkFiles(fs: FileSystem) returns (walked: Option<seq<WalkedFile>>)
      modifies walkCache
      ensures View() == AfterWalk(config, old(View()), fs)
      ensures walked == Walked(config, old(View()), fs)
    {
      if registered {
        walked := walkCache.GetValid();
        if walked.None? {
          walked := config.walk(fs.files.Keys, fs.rules, roots.Values);
          if walked.Some? {
            walkCache.Store(walked.value);
          }
        }
      } else {
        walked := config.walk(fs.files.Keys, fs.rules, roots.Values);
      }
    }

    /** Refreshes the workspace documents and reports their URLs, sorted and without duplicates. */
    method RefreshWorkspaceDocuments(fs: FileSystem, at: nat -> Moment) returns (urls: Option<seq<Url>>)
      modifies this`documents, this`tokens, walkCache
      ensures View() == Refresh(config, old(View()), fs, at).0
      ensures match Refresh(config, old(View()), fs, at).1
              case None => urls.None?
              case Some(all) => urls.Some? && StrictlySorted(urls.value) && SetOf(urls.value) == all
    {
      if !(supported && enabled) || roots == map[] {
        var keys := SortedKeys(documents);
        return Some(keys);
      }
      var walked := WalkFiles(fs);
      if walked.None? {
        return None;
      }
      var open, loads := Partition(walked.value);
      var loaded := LoadDocuments(loads, at);
      var sorted := SortUrls(open + loaded);
      RetainDocuments(KeepAfterRefresh(config, roots.Values, SetOf(open + loaded)));
      return Some(sorted);
    }
  }

  /** No removed root drops nothing. */
  lemma KeepOutsideNothing(c: Config, s: Store)
    ensures Retain(s, KeepOutside(c, {})) == s
  {
    var kept := map url | url in s.docs && KeepOutside(c, {})(url, s.docs[url]) :: s.docs[url];
    forall url | url in s.docs ensures url in kept {
      assert !InRoots(c, url, {});
    }
    assert kept == s.docs;
    assert s.tokens - {} == s.tokens;
  }
}
