/** Token responses through the store: the slot they leave, and the sessions that run over it. */
module TokenSessions {
  import opened Wrappers
  import opened TextEncoding
  import opened Positions
  import opened TokenStreams
  import opened TokenSplice
  import opened TokenDelta
  import opened StoreModel
  import opened HandlerEffects

  // ------------------------------------------------------------ single responses

  /** Nothing but a URL's token stream changed. */
  ghost predicate OnlySlot(s: Store, t: Store, url: Url) {
    && SettingsKept(s, t) && t.walk == s.walk && t.docs == s.docs
    && forall u :: u != url ==> UrlKept(s, t, u)
  }

  /** A stored stream is its URL's, and nothing else changes. */
  lemma StoredIsHeld(s: Store, url: Url, cached: CachedSemanticTokens)
    ensures var t := StoreTokens(s, url, cached);
            url in t.tokens && t.tokens[url] == cached && OnlySlot(s, t, url)
  {
  }

  /**
   A full response is sent converted from the document's start. Under an id its UTF-8 data, as the
   server gave it, becomes the URL's stream; without one the store stays as it was.
   */
  lemma FullResponseStores(c: Config, s: Store, url: Url, text: string, id: Option<string>, data: seq<SemanticToken>)
    ensures var (t, sent) := Respond(c, s, url, text, Tokens(id, data));
            && sent == Tokens(id, ConvertFrom(text, UTF8, c.encoding, DOCUMENT_START, data))
            && match id
               case None => t == s
               case Some(name) =>
                 url in t.tokens && t.tokens[url] == CachedSemanticTokens(name, data) && OnlySlot(s, t, url)
  {
    StartConvertsToStart(text, UTF8, c.encoding, data);
    if id.Some? {
      StoredIsHeld(s, url, CachedSemanticTokens(id.value, data));
    }
  }

  /** A response of edits, under an optional id unless it is partial. */
  predicate OfEdits(r: Response, edits: seq<SemanticTokensEdit>) {
    (r.TokensDelta? && r.edits == edits) || (r.PartialTokensDelta? && r.partialEdits == edits)
  }

  /** Without a cached stream, edits, partial ones too, are sent as they came, and the store stays. */
  lemma MissPassesThrough(c: Config, s: Store, url: Url, text: string, r: Response, edits: seq<SemanticTokensEdit>)
    requires OfEdits(r, edits) && url !in s.tokens
    ensures Respond(c, s, url, text, r) == (s, r)
  {
  }

  /** One edit's inserted run converted after the tokens wholly before it in the cached stream, nothing else touched. */
  predicate ConvertedAfter(text: string, client: Encoding, cached: seq<SemanticToken>,
                           e: SemanticTokensEdit, out: SemanticTokensEdit) {
    && out.start == e.start && out.deleteCount == e.deleteCount
    && (e.data.None? ==> out.data.None?)
    && (e.data.Some? ==>
          out.data == Some(ConvertFrom(text, UTF8, client, After(DOCUMENT_START, cached[..Anchor(e, |cached|)]),
                                       e.data.value)))
  }

  lemma EditsConverted(text: string, client: Encoding, cached: CachedSemanticTokens, edits: seq<SemanticTokensEdit>)
    ensures var out := OutgoingEdits(text, client, Some(cached), edits);
            |out| == |edits| && forall i :: 0 <= i < |edits| ==>
              ConvertedAfter(text, client, cached.data, edits[i], out[i])
  {
    var out := OutgoingEdits(text, client, Some(cached), edits);
    forall i | 0 <= i < |edits| ensures |out| == |edits| && ConvertedAfter(text, client, cached.data, edits[i], out[i]) {
      OutgoingEditAt(text, client, Some(cached), edits, i);
    }
  }

  /** With a cached stream a partial result's edits are sent converted, and the store stays. */
  lemma PartialConverts(c: Config, s: Store, url: Url, text: string, edits: seq<SemanticTokensEdit>)
    requires url in s.tokens
    ensures var (t, sent) := Respond(c, s, url, text, PartialTokensDelta(edits));
            && t.tokens == s.tokens && OnlySlot(s, t, url)
            && sent == PartialTokensDelta(OutgoingEdits(text, c.encoding, Some(s.tokens[url]), edits))
  {
  }

  /**
   With a cached stream a delta's edits are sent converted, and its own UTF-8 edits are spliced into the
   stream, which is kept under the delta's id or, when it has none, under the cached one.
   */
  lemma DeltaSplices(c: Config, s: Store, url: Url, text: string, id: Option<string>, edits: seq<SemanticTokensEdit>)
    requires url in s.tokens
    ensures var (t, sent) := Respond(c, s, url, text, TokensDelta(id, edits));
            var held := s.tokens[url];
            && url in t.tokens && OnlySlot(s, t, url)
            && t.tokens[url] == CachedSemanticTokens(if id.Some? then id.value else held.resultId,
                                                     Spliced(held.data, edits))
            && sent == TokensDelta(id, OutgoingEdits(text, c.encoding, Some(held), edits))
  {
    var held := s.tokens[url];
    StoredIsHeld(s, url, CachedSemanticTokens(if id.Some? then id.value else held.resultId, Spliced(held.data, edits)));
  }

  // ------------------------------------------------------------ runs

  /** A response for some document. */
  datatype Reply = Reply(url: Url, turn: Turn)

  function Replies(c: Config, s: Store, rs: seq<Reply>): Store {
    if rs == [] then s
    else
      var r := rs[|rs| - 1];
      Respond(c, Replies(c, s, rs[..|rs| - 1]), r.url, r.turn.text, r.turn.response).0
  }

  /** The responses for one document, in order. */
  function TurnsFor(rs: seq<Reply>, url: Url): seq<Turn> {
    if rs == [] then []
    else if rs[|rs| - 1].url == url then TurnsFor(rs[..|rs| - 1], url) + [rs[|rs| - 1].turn]
    else TurnsFor(rs[..|rs| - 1], url)
  }

  lemma ReplyIsExchange(c: Config, s: Store, url: Url, turn: Turn, session: Session)
    requires CachedFor(s, url) == session.server
    ensures CachedFor(Respond(c, s, url, turn.text, turn.response).0, url) ==
            Exchange(c.encoding, session, turn).server
  {
  }

  lemma OtherReplyKeeps(c: Config, s: Store, url: Url, other: Url, turn: Turn)
    requires url != other
    ensures CachedFor(Respond(c, s, other, turn.text, turn.response).0, url) == CachedFor(s, url)
  {
  }

  /**
   Over every run of responses for any documents, each URL's slot in the store is the server's side of
   the session of that URL's responses alone, and documents and settings stay.
   */
  lemma {:induction false} SlotIsSession(c: Config, s: Store, rs: seq<Reply>, url: Url, session: Session)
    requires CachedFor(s, url) == session.server
    ensures CachedFor(Replies(c, s, rs), url) == Exchanges(c.encoding, session, TurnsFor(rs, url)).server
    ensures Replies(c, s, rs).docs == s.docs
  {
    if rs != [] {
      var before, r := Replies(c, s, rs[..|rs| - 1]), rs[|rs| - 1];
      var turns := TurnsFor(rs[..|rs| - 1], url);
      SlotIsSession(c, s, rs[..|rs| - 1], url, session);
      if r.url == url {
        ReplyIsExchange(c, before, url, r.turn, Exchanges(c.encoding, session, turns));
        assert (turns + [r.turn])[..|turns|] == turns;
      } else {
        OtherReplyKeeps(c, before, url, r.url, r.turn);
      }
    }
  }

  /**
   So a client that starts in sync with the store's slot for a document stays in sync with it over every
   run of responses for any documents, as long as that document's deltas move alike.
   */
  lemma StoreStaysInSync(c: Config, s: Store, rs: seq<Reply>, url: Url, session: Session)
    requires CachedFor(s, url) == session.server && InSync(c.encoding, session)
    requires MaySendAll(c.encoding, session, TurnsFor(rs, url))
    ensures var now := Exchanges(c.encoding, session, TurnsFor(rs, url));
            InSync(c.encoding, now.(server := CachedFor(Replies(c, s, rs), url)))
  {
    SlotIsSession(c, s, rs, url, session);
    SessionStaysInSync(c.encoding, session, TurnsFor(rs, url));
  }
}
