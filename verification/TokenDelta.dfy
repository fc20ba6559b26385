/**
 Semantic-token responses on their way out: the converted edits a client splices into its
 converted stream, and the UTF-8 cache the server's next delta is computed against.
 */
module TokenDelta {
  import opened Wrappers
  import opened MachineInts
  import opened TextEncoding
  import opened TextLines
  import opened Positions
  import opened TokenStreams
  import opened TokenMoves
  import opened TokenSplice

  /** The server's UTF-8 stream for one document, under the id a delta request names. */
  datatype CachedSemanticTokens = CachedSemanticTokens(resultId: string, data: seq<SemanticToken>)

  // ------------------------------------------------------------ converting edits

  /** The position an edit's inserted tokens are relative to, in the cached stream. */
  function Seed(cached: seq<SemanticToken>, e: SemanticTokensEdit): LspPosition {
    After(DOCUMENT_START, cached[..Anchor(e, |cached|)])
  }

  /** An edit with its tokens converted by `conv`. */
  function ConvertedEdit(conv: Conversion, cached: seq<SemanticToken>, e: SemanticTokensEdit): SemanticTokensEdit {
    match e.data
    case None => e
    case Some(ts) => e.(data := Some(Walk(conv, Seed(cached, e), conv(Seed(cached, e)), ts)))
  }

  function ConvertedEdits(conv: Conversion, cached: seq<SemanticToken>, es: seq<SemanticTokensEdit>)
    : (r: seq<SemanticTokensEdit>)
    ensures |r| == |es|
  {
    if es == [] then [] else [ConvertedEdit(conv, cached, es[0])] + ConvertedEdits(conv, cached, es[1..])
  }

  /** The edits sent to the client: unconverted on a cache miss or when it speaks UTF-8. */
  function OutgoingEdits(text: string, client: Encoding, cached: Option<CachedSemanticTokens>,
                         es: seq<SemanticTokensEdit>): seq<SemanticTokensEdit> {
    if cached.None? || client == UTF8 then es
    else ConvertedEdits(Converter(text, UTF8, client), cached.value.data, es)
  }

  /** Converts the edits in place. */
  method ConvertSemanticTokensEdits(text: string, client: Encoding, cached: Option<CachedSemanticTokens>,
                                    edits: array<SemanticTokensEdit>)
    modifies edits
    ensures edits[..] == OutgoingEdits(text, client, cached, old(edits[..]))
  {
    if cached.None? {
      return;
    }
    ghost var was := edits[..];
    ghost var out := OutgoingEdits(text, client, cached, was);
    var data := cached.value.data;
    for i := 0 to edits.Length
      invariant |out| == edits.Length
      invariant forall k :: 0 <= k < i ==> edits[k] == out[k]
      invariant forall k :: i <= k < edits.Length ==> edits[k] == was[k]
    {
      OutgoingEditAt(text, client, cached, was, i);
      if edits[i].data.Some? {
        var inserted := ConvertInserted(text, client, data, edits[i]);
        edits[i] := edits[i].(data := Some(inserted));
      }
    }
  }

  /** One edit's inserted tokens, seeded in both encodings from the cached prefix. */
  method ConvertInserted(text: string, client: Encoding, data: seq<SemanticToken>, e: SemanticTokensEdit)
    returns (converted: seq<SemanticToken>)
    requires e.data.Some?
    ensures converted == ConvertFrom(text, UTF8, client, Seed(data, e), e.data.value)
  {
    var tokens := e.data.value;
    var anchor := Min(e.start / TOKEN_WIDTH, |data|);
    var seedSource := AbsolutePosition(data[..anchor]);
    var seedTarget := LspToEncoding(text, seedSource, UTF8, client);
    var inserted := new SemanticToken[|tokens|](k requires 0 <= k < |tokens| => tokens[k]);
    assert inserted[..] == tokens;
    ConvertSeededTokenStream(text, inserted, UTF8, client, seedSource, seedTarget);
    converted := inserted[..];
  }

  lemma OutgoingEditAt(text: string, client: Encoding, cached: Option<CachedSemanticTokens>,
                       es: seq<SemanticTokensEdit>, i: nat)
    requires cached.Some? && i < |es|
    ensures |OutgoingEdits(text, client, cached, es)| == |es|
    ensures OutgoingEdits(text, client, cached, es)[i] ==
            match es[i].data
            case None => es[i]
            case Some(ts) =>
              es[i].(data := Some(ConvertFrom(text, UTF8, client, Seed(cached.value.data, es[i]), ts)))
  {
    if client != UTF8 {
      ConvertedEditAt(Converter(text, UTF8, client), cached.value.data, es, i);
    }
  }

  lemma {:induction false} ConvertedEditAt(conv: Conversion, cached: seq<SemanticToken>,
                                           es: seq<SemanticTokensEdit>, i: nat)
    requires i < |es|
    ensures ConvertedEdits(conv, cached, es)[i] == ConvertedEdit(conv, cached, es[i])
  {
    if i > 0 {
      ConvertedEditAt(conv, cached, es[1..], i - 1);
    }
  }

  // ------------------------------------------------------------ delta coherence

  /**
   Each edit's inserted run ends where its deleted run ended, so that what is kept after
   it stands where it stood; the last edit is free when nothing is kept after it.
   */
  predicate KeepsEnds(cached: seq<SemanticToken>, es: seq<SemanticTokensEdit>) {
    es == [] ||
    (var i, j := Anchor(es[0], |cached|), AnchorEnd(es[0], |cached|);
     && (After(Seed(cached, es[0]), es[0].Tokens()) == After(DOCUMENT_START, cached[..j])
         || (|es| == 1 && j == |cached|))
     && KeepsEnds(cached, es[1..]))
  }

  /** Sorted by start the edits are disjoint and token-aligned, and overruns do no harm. */
  predicate WellShaped(cached: seq<SemanticToken>, edits: seq<SemanticTokensEdit>) {
    var es := SortByStart(edits);
    DisjointFrom(es, 0) && Aligned(es) && OverrunsHarmless(TOKEN_WIDTH * |cached|, es)
  }

  /** What may hold of a run, given the position it was converted after and the one it follows in the splice. */
  type RunTest = (LspPosition, LspPosition, seq<SemanticToken>) -> bool

  function AlikeBy(held: Conversion, conv: Conversion): RunTest {
    (p, q, run) => MovesAlike(held, p, conv, q, run)
  }

  function AlikeInText(before: string, text: string, client: Encoding): RunTest {
    (p, q, run) => RunMovesAlike(before, p, text, q, client, run)
  }

  function SettledIn(text: string): RunTest { (p, q, run) => Settles(text, p, q, run) }

  /**
   Every kept and every inserted run of the splice passes its test: it was converted after the cached
   prefix, and follows what is spliced before it. The stream has come to `from`, the splice to `at`.
   */
  predicate EveryRun(ts: seq<SemanticToken>, es: seq<SemanticTokensEdit>, from: nat, at: LspPosition,
                     ofKept: RunTest, ofInserted: RunTest)
    requires from <= |ts| && DisjointFrom(es, TOKEN_WIDTH * from)
    decreases |es|
  {
    var p := After(DOCUMENT_START, ts[..from]);
    if es == [] then ofKept(p, at, ts[from..])
    else
      var kept := ts[from..Anchor(es[0], |ts|)];
      var seed := After(at, kept);
      && ofKept(p, at, kept)
      && ofInserted(Seed(ts, es[0]), seed, es[0].Tokens())
      && EveryRun(ts, es[1..], AnchorEnd(es[0], |ts|), After(seed, es[0].Tokens()), ofKept, ofInserted)
  }

  ghost predicate Implies(test: RunTest, weaker: RunTest) {
    forall p, q, run :: test(p, q, run) ==> weaker(p, q, run)
  }

  lemma {:induction false} EveryRunWeakens(ts: seq<SemanticToken>, es: seq<SemanticTokensEdit>, from: nat,
                                           at: LspPosition, ofKept: RunTest, ofInserted: RunTest,
                                           weakerKept: RunTest, weakerInserted: RunTest)
    requires from <= |ts| && DisjointFrom(es, TOKEN_WIDTH * from)
    requires Implies(ofKept, weakerKept) && Implies(ofInserted, weakerInserted)
    ensures EveryRun(ts, es, from, at, ofKept, ofInserted) ==>
            EveryRun(ts, es, from, at, weakerKept, weakerInserted)
    decreases |es|
  {
    if es != [] {
      var seed := After(at, ts[from..Anchor(es[0], |ts|)]);
      EveryRunWeakens(ts, es[1..], AnchorEnd(es[0], |ts|), After(seed, es[0].Tokens()),
                      ofKept, ofInserted, weakerKept, weakerInserted);
    }
  }

  /**
   The edits a server may always send over unchanged text: well shaped, and every run stands where
   it stood or begins on a new line of the document.
   */
  predicate Admissible(text: string, cached: seq<SemanticToken>, edits: seq<SemanticTokensEdit>) {
    && WellShaped(cached, edits)
    && EveryRun(cached, SortByStart(edits), 0, DOCUMENT_START, SettledIn(text), SettledIn(text))
  }

  /** Conversion leaves starts and counts alone, and with them every index condition. */
  lemma {:induction false} ConvertedKeepsShape(conv: Conversion, cached: seq<SemanticToken>,
                                               es: seq<SemanticTokensEdit>, from: nat, size: nat)
    ensures DisjointFrom(es, from) ==> DisjointFrom(ConvertedEdits(conv, cached, es), from)
    ensures Aligned(es) ==> Aligned(ConvertedEdits(conv, cached, es))
    ensures InsertsNothing(es) ==> InsertsNothing(ConvertedEdits(conv, cached, es))
    ensures OverrunsHarmless(size, es) ==> OverrunsHarmless(size, ConvertedEdits(conv, cached, es))
  {
    if es != [] {
      var out := ConvertedEdits(conv, cached, es);
      ConvertedKeepsShape(conv, cached, es[1..], es[0].End(), size);
      assert out[1..] == ConvertedEdits(conv, cached, es[1..]);
      if Aligned(es) {
        assert es[0] in es;
        assert forall e :: e in es[1..] ==> e in es;
      }
    }
  }

  lemma {:induction false} ConvertedInsert(conv: Conversion, cached: seq<SemanticToken>,
                                           e: SemanticTokensEdit, es: seq<SemanticTokensEdit>)
    ensures InsertByStart(ConvertedEdit(conv, cached, e), ConvertedEdits(conv, cached, es)) ==
            ConvertedEdits(conv, cached, InsertByStart(e, es))
  {
    if es == [] || e.start <= es[0].start {
      assert ([e] + es)[1..] == es;
    } else {
      ConvertedInsert(conv, cached, e, es[1..]);
      assert ([es[0]] + InsertByStart(e, es[1..]))[1..] == InsertByStart(e, es[1..]);
      assert ConvertedEdits(conv, cached, es)[1..] == ConvertedEdits(conv, cached, es[1..]);
    }
  }

  /** Converting commutes with sorting. */
  lemma {:induction false} ConvertedSort(conv: Conversion, cached: seq<SemanticToken>, es: seq<SemanticTokensEdit>)
    ensures SortByStart(ConvertedEdits(conv, cached, es)) == ConvertedEdits(conv, cached, SortByStart(es))
  {
    if es != [] {
      ConvertedSort(conv, cached, es[1..]);
      ConvertedInsert(conv, cached, es[0], SortByStart(es[1..]));
    }
  }

  function Whole(conv: Conversion, ts: seq<SemanticToken>): (r: seq<SemanticToken>)
    ensures |r| == |ts|
  {
    Walk(conv, DOCUMENT_START, conv(DOCUMENT_START), ts)
  }

  /** The conversion of a run of the stream is that run of the stream's conversion. */
  lemma WholeSlice(conv: Conversion, ts: seq<SemanticToken>, i: nat, j: nat)
    requires i <= j <= |ts|
    ensures var p := After(DOCUMENT_START, ts[..i]);
            && Whole(conv, ts)[i..j] == Walk(conv, p, conv(p), ts[i..j])
            && After(p, ts[i..j]) == After(DOCUMENT_START, ts[..j])
  {
    var p := After(DOCUMENT_START, ts[..i]);
    assert ts[..i] + ts[i..j] == ts[..j] && ts[..j] + ts[j..] == ts;
    WalkConcat(conv, DOCUMENT_START, ts[..j], ts[j..]);
    WalkConcat(conv, DOCUMENT_START, ts[..i], ts[i..j]);
    AfterConcat(DOCUMENT_START, ts[..i], ts[i..j]);
    assert Whole(conv, ts)[..j] == Whole(conv, ts[..j]);
    assert Whole(conv, ts[..j])[i..] == Whole(conv, ts)[i..j];
  }

  lemma ConcatsEqualIff<T>(a: seq<T>, b: seq<T>, c: seq<T>, x: seq<T>, y: seq<T>, z: seq<T>)
    requires |a| == |x| && |b| == |y|
    ensures a + b + c == x + y + z <==> a == x && b == y && c == z
  {
    var l, r := a + b + c, x + y + z;
    assert l[..|a|] == a && l[|a|..|a| + |b|] == b && l[|a| + |b|..] == c;
    assert r[..|x|] == x && r[|x|..|x| + |y|] == y && r[|x| + |y|..] == z;
  }

  /** From `from` on, the client's splice is the conversion of the server's after `at`. */
  predicate SpliceAgrees(held: Conversion, conv: Conversion, ts: seq<SemanticToken>, es: seq<SemanticTokensEdit>,
                         from: nat, at: LspPosition)
    requires from <= |ts| && DisjointFrom(es, TOKEN_WIDTH * from)
    requires DisjointFrom(ConvertedEdits(conv, ts, es), TOKEN_WIDTH * from)
  {
    TokensAtOnce(Whole(held, ts), ConvertedEdits(conv, ts, es), from) ==
    Walk(conv, at, conv(at), TokensAtOnce(ts, es, from))
  }

  /** The two splices agree exactly when every run moves alike. */
  lemma {:induction false} CoherentFromIff(held: Conversion, conv: Conversion, ts: seq<SemanticToken>,
                                           es: seq<SemanticTokensEdit>, from: nat, at: LspPosition)
    requires from <= |ts| && DisjointFrom(es, TOKEN_WIDTH * from)
    ensures DisjointFrom(ConvertedEdits(conv, ts, es), TOKEN_WIDTH * from)
    ensures SpliceAgrees(held, conv, ts, es, from, at) <==>
            EveryRun(ts, es, from, at, AlikeBy(held, conv), AlikeBy(conv, conv))
    decreases |es|
  {
    ConvertedKeepsShape(conv, ts, es, TOKEN_WIDTH * from, 0);
    if es == [] {
      TailAgreesIff(held, conv, ts, from, at);
    } else {
      var kept := ts[from..Anchor(es[0], |ts|)];
      var next := After(After(at, kept), es[0].Tokens());
      CoherentFromIff(held, conv, ts, es[1..], AnchorEnd(es[0], |ts|), next);
      EditAgreesIff(held, conv, ts, es, from, at);
    }
  }

  lemma TailAgreesIff(held: Conversion, conv: Conversion, ts: seq<SemanticToken>, from: nat, at: LspPosition)
    requires from <= |ts|
    ensures Whole(held, ts)[from..] == Walk(conv, at, conv(at), ts[from..]) <==>
            MovesAlike(held, After(DOCUMENT_START, ts[..from]), conv, at, ts[from..])
  {
    WholeSlice(held, ts, from, |ts|);
    assert ts[from..|ts|] == ts[from..] && Whole(held, ts)[from..|ts|] == Whole(held, ts)[from..];
  }

  /** At an edit the splices agree exactly when its kept and inserted runs move alike and the rest agrees. */
  lemma EditAgreesIff(held: Conversion, conv: Conversion, ts: seq<SemanticToken>, es: seq<SemanticTokensEdit>,
                      from: nat, at: LspPosition)
    requires es != [] && from <= |ts| && DisjointFrom(es, TOKEN_WIDTH * from)
    requires DisjointFrom(ConvertedEdits(conv, ts, es), TOKEN_WIDTH * from)
    requires DisjointFrom(ConvertedEdits(conv, ts, es[1..]), TOKEN_WIDTH * AnchorEnd(es[0], |ts|))
    ensures var kept := ts[from..Anchor(es[0], |ts|)];
            var seed := After(at, kept);
            SpliceAgrees(held, conv, ts, es, from, at) <==>
            && MovesAlike(held, After(DOCUMENT_START, ts[..from]), conv, at, kept)
            && MovesAlike(conv, Seed(ts, es[0]), conv, seed, es[0].Tokens())
            && SpliceAgrees(held, conv, ts, es[1..], AnchorEnd(es[0], |ts|), After(seed, es[0].Tokens()))
  {
    var i, j := Anchor(es[0], |ts|), AnchorEnd(es[0], |ts|);
    ConvertedUnfolds(held, conv, ts, es, from, i, j);
    CoherentStepIff(held, conv, ts, es[0], from, at, TokensAtOnce(ts, es[1..], j),
                    TokensAtOnce(Whole(held, ts), ConvertedEdits(conv, ts, es[1..]), j));
  }

  /** A kept run, an inserted run and the rest agree exactly when each of them does. */
  lemma CoherentStepIff(held: Conversion, conv: Conversion, ts: seq<SemanticToken>, e: SemanticTokensEdit,
                        from: nat, at: LspPosition, rest: seq<SemanticToken>, spliced: seq<SemanticToken>)
    requires from <= Anchor(e, |ts|)
    ensures var kept := ts[from..Anchor(e, |ts|)];
            var p, seed := After(DOCUMENT_START, ts[..from]), After(at, kept);
            var next := After(seed, e.Tokens());
            Whole(held, ts)[from..Anchor(e, |ts|)] + ConvertedEdit(conv, ts, e).Tokens() + spliced ==
            Walk(conv, at, conv(at), kept + e.Tokens() + rest) <==>
            && MovesAlike(held, p, conv, at, kept)
            && MovesAlike(conv, Seed(ts, e), conv, seed, e.Tokens())
            && spliced == Walk(conv, next, conv(next), rest)
  {
    var i := Anchor(e, |ts|);
    var kept := ts[from..i];
    var seed := After(at, kept);
    var next := After(seed, e.Tokens());
    WholeSlice(held, ts, from, i);
    WalkThrice(conv, at, kept, e.Tokens(), rest);
    ConcatsEqualIff(Whole(held, ts)[from..i], ConvertedEdit(conv, ts, e).Tokens(), spliced,
                    Walk(conv, at, conv(at), kept), Walk(conv, seed, conv(seed), e.Tokens()),
                    Walk(conv, next, conv(next), rest));
  }

  lemma WalkThrice(conv: Conversion, p: LspPosition,
                   a: seq<SemanticToken>, b: seq<SemanticToken>, c: seq<SemanticToken>)
    ensures var q := After(p, a);
            var r := After(q, b);
            Walk(conv, p, conv(p), a + b + c) ==
            Walk(conv, p, conv(p), a) + Walk(conv, q, conv(q), b) + Walk(conv, r, conv(r), c)
  {
    WalkConcat(conv, p, a, b);
    WalkConcat(conv, p, a + b, c);
    AfterConcat(p, a, b);
  }

  /** Edits that keep their ends leave every run where it stood. */
  lemma {:induction false} KeptEndsSettle(text: string, ts: seq<SemanticToken>, es: seq<SemanticTokensEdit>, from: nat)
    requires from <= |ts| && DisjointFrom(es, TOKEN_WIDTH * from) && KeepsEnds(ts, es)
    ensures EveryRun(ts, es, from, After(DOCUMENT_START, ts[..from]), SettledIn(text), SettledIn(text))
    decreases |es|
  {
    if es != [] {
      var i, j := Anchor(es[0], |ts|), AnchorEnd(es[0], |ts|);
      AfterConcat(DOCUMENT_START, ts[..from], ts[from..i]);
      assert ts[..from] + ts[from..i] == ts[..i];
      if After(Seed(ts, es[0]), es[0].Tokens()) == After(DOCUMENT_START, ts[..j]) {
        KeptEndsSettle(text, ts, es[1..], j);
      }
    }
  }

  lemma AtOnceUnfolds(ts: seq<SemanticToken>, es: seq<SemanticTokensEdit>, from: nat)
    requires es != [] && from <= |ts| && DisjointFrom(es, TOKEN_WIDTH * from)
    requires DisjointFrom(es[1..], TOKEN_WIDTH * AnchorEnd(es[0], |ts|))
    ensures from <= Anchor(es[0], |ts|)
    ensures TokensAtOnce(ts, es, from) ==
            ts[from..Anchor(es[0], |ts|)] + es[0].Tokens() + TokensAtOnce(ts, es[1..], AnchorEnd(es[0], |ts|))
  {
  }

  lemma ConvertedUnfolds(held: Conversion, conv: Conversion, ts: seq<SemanticToken>, es: seq<SemanticTokensEdit>,
                         from: nat, i: nat, j: nat)
    requires es != [] && from <= |ts| && i == Anchor(es[0], |ts|) && j == AnchorEnd(es[0], |ts|)
    requires DisjointFrom(ConvertedEdits(conv, ts, es), TOKEN_WIDTH * from)
    requires DisjointFrom(ConvertedEdits(conv, ts, es[1..]), TOKEN_WIDTH * j)
    ensures from <= i
    ensures TokensAtOnce(Whole(held, ts), ConvertedEdits(conv, ts, es), from) ==
            Whole(held, ts)[from..i] + ConvertedEdit(conv, ts, es[0]).Tokens() +
            TokensAtOnce(Whole(held, ts), ConvertedEdits(conv, ts, es[1..]), j)
  {
    var out := ConvertedEdits(conv, ts, es);
    assert out[1..] == ConvertedEdits(conv, ts, es[1..]) && out[0] == ConvertedEdit(conv, ts, es[0]);
    AtOnceUnfolds(Whole(held, ts), out, from);
  }

  /**
   A client that holds the cached stream converted over the text `before`, and splices in the edits
   converted over `text`, holds the conversion over `text` of what the server splices.
   */
  predicate StaysCoherent(before: string, text: string, client: Encoding, cached: CachedSemanticTokens,
                          edits: seq<SemanticTokensEdit>) {
    Spliced(ConvertStream(before, UTF8, client, cached.data), OutgoingEdits(text, client, Some(cached), edits)) ==
    ConvertStream(text, UTF8, client, Spliced(cached.data, edits))
  }

  /** A well-shaped delta is coherent exactly when every run of the splice moves alike. */
  lemma DeltaCoherentIffAlike(before: string, text: string, client: Encoding, cached: CachedSemanticTokens,
                              edits: seq<SemanticTokensEdit>)
    requires client != UTF8 && WellShaped(cached.data, edits)
    ensures var held, conv := Converter(before, UTF8, client), Converter(text, UTF8, client);
            StaysCoherent(before, text, client, cached, edits) <==>
            EveryRun(cached.data, SortByStart(edits), 0, DOCUMENT_START, AlikeBy(held, conv), AlikeBy(conv, conv))
  {
    var held, conv := Converter(before, UTF8, client), Converter(text, UTF8, client);
    var ts, es := cached.data, SortByStart(edits);
    StartConvertsToStart(before, UTF8, client, ts);
    StartConvertsToStart(text, UTF8, client, ts);
    ConvertedSort(conv, ts, edits);
    ConvertedKeepsShape(conv, ts, es, 0, TOKEN_WIDTH * |ts|);
    SpliceIsTokenwise(ts, edits);
    SpliceIsTokenwise(Whole(held, ts), ConvertedEdits(conv, ts, edits));
    CoherentFromIff(held, conv, ts, es, 0, DOCUMENT_START);
  }

  /**
   What a delta across a change of the text must satisfy: each kept run's tokens, until its two places
   meet, go down as many lines and pass and cover text of the same client length where they stood in
   the text before and where they stand now; each inserted run's do so at both places in the text now.
   */
  predicate RunsMoveAlike(before: string, text: string, client: Encoding, cached: seq<SemanticToken>,
                          es: seq<SemanticTokensEdit>)
    requires DisjointFrom(es, 0)
  {
    EveryRun(cached, es, 0, DOCUMENT_START, AlikeInText(before, text, client), AlikeInText(text, text, client))
  }

  lemma AlikeInTextIff(before: string, text: string, client: Encoding)
    requires client != UTF8
    ensures var held, conv := Converter(before, UTF8, client), Converter(text, UTF8, client);
            && Implies(AlikeBy(held, conv), AlikeInText(before, text, client))
            && Implies(AlikeInText(before, text, client), AlikeBy(held, conv))
  {
    var held, conv := Converter(before, UTF8, client), Converter(text, UTF8, client);
    forall p, q, run ensures AlikeBy(held, conv)(p, q, run) <==> AlikeInText(before, text, client)(p, q, run) {
      RunMovesAlikeIff(before, p, text, q, client, run);
    }
  }

  /** A well-shaped delta, across any change of the text or none, is coherent if and only if its runs move alike. */
  lemma DeltaCoherentIff(before: string, text: string, client: Encoding, cached: CachedSemanticTokens,
                         edits: seq<SemanticTokensEdit>)
    requires client != UTF8 && WellShaped(cached.data, edits)
    ensures StaysCoherent(before, text, client, cached, edits) <==>
            RunsMoveAlike(before, text, client, cached.data, SortByStart(edits))
  {
    var held, conv := Converter(before, UTF8, client), Converter(text, UTF8, client);
    var kept, inserted := AlikeInText(before, text, client), AlikeInText(text, text, client);
    DeltaCoherentIffAlike(before, text, client, cached, edits);
    AlikeInTextIff(before, text, client);
    AlikeInTextIff(text, text, client);
    EveryRunWeakens(cached.data, SortByStart(edits), 0, DOCUMENT_START,
                    AlikeBy(held, conv), AlikeBy(conv, conv), kept, inserted);
    EveryRunWeakens(cached.data, SortByStart(edits), 0, DOCUMENT_START,
                    kept, inserted, AlikeBy(held, conv), AlikeBy(conv, conv));
  }

  /**
   Delta coherence over unchanged text: edits whose runs stand where they stood, or begin on a new
   line of the document, leave client and server in step.
   */
  lemma DeltaCoherence(text: string, client: Encoding, cached: CachedSemanticTokens, edits: seq<SemanticTokensEdit>)
    requires Admissible(text, cached.data, edits)
    ensures StaysCoherent(text, text, client, cached, edits)
  {
    if client != UTF8 {
      var conv := Converter(text, UTF8, client);
      DeltaCoherentIffAlike(text, text, client, cached, edits);
      forall p, q, run | SettledIn(text)(p, q, run) ensures AlikeBy(conv, conv)(p, q, run) {
        SettledMovesAlike(text, client, p, q, run);
      }
      EveryRunWeakens(cached.data, SortByStart(edits), 0, DOCUMENT_START,
                      SettledIn(text), SettledIn(text), AlikeBy(conv, conv), AlikeBy(conv, conv));
    }
  }

  /** In particular edits whose inserted and deleted runs end at one position are admissible. */
  lemma KeptEndsAdmissible(text: string, cached: seq<SemanticToken>, edits: seq<SemanticTokensEdit>)
    requires WellShaped(cached, edits) && KeepsEnds(cached, SortByStart(edits))
    ensures Admissible(text, cached, edits)
  {
    KeptEndsSettle(text, cached, SortByStart(edits), 0);
    assert cached[..0] == [];
  }

  /** Without kept ends coherence fails: here a deleted run moves the token after it. */
  lemma EndsMustBeKept(text: string, t: SemanticToken, u: SemanticToken)
    requires text == "\U{E9}ab" && t == SemanticToken(0, 2, 1, 0, 0) && u == SemanticToken(0, 1, 1, 0, 0)
    ensures IncoherentDelta(text, UTF16, CachedSemanticTokens("1", [t, u]), [SemanticTokensEdit(0, 5, None)])
  {
    SmallText(text);
    DroppedRunMoves(text, t, u);
  }

  /** Well-shaped edits whose conversion the client splices to a wrong stream. */
  ghost predicate IncoherentDelta(text: string, client: Encoding, cached: CachedSemanticTokens,
                                  edits: seq<SemanticTokensEdit>) {
    WellShaped(cached.data, edits) && !StaysCoherent(text, text, client, cached, edits)
  }

  lemma DroppedRunMoves(text: string, t: SemanticToken, u: SemanticToken)
    requires t == SemanticToken(0, 2, 1, 0, 0) && u == SemanticToken(0, 1, 1, 0, 0)
    requires SmallConversion(Converter(text, UTF8, UTF16))
    ensures IncoherentDelta(text, UTF16, CachedSemanticTokens("1", [t, u]), [SemanticTokensEdit(0, 5, None)])
  {
    var ts, edits := [t, u], [SemanticTokensEdit(0, 5, None)];
    var w := ConvertStream(text, UTF8, UTF16, ts);
    NothingToConvert(text, UTF16, CachedSemanticTokens("1", ts));
    ConvertedTwoTokens(text, t, u);
    SpliceDropsFirst(t, u);
    SpliceDropsFirst(w[0], w[1]);
    assert w == [w[0], w[1]];
    assert [w[1]][0].deltaStart != ConvertStream(text, UTF8, UTF16, [u])[0].deltaStart;
  }

  lemma NothingToConvert(text: string, client: Encoding, cached: CachedSemanticTokens)
    ensures var edits := [SemanticTokensEdit(0, 5, None)];
            OutgoingEdits(text, client, Some(cached), edits) == edits
  {
  }

  lemma SpliceDropsFirst(t: SemanticToken, u: SemanticToken)
    ensures var edits := [SemanticTokensEdit(0, 5, None)];
            && SortByStart(edits) == edits
            && DisjointFrom(edits, 0) && Aligned(edits) && OverrunsHarmless(10, edits)
            && Spliced([t, u], edits) == [u]
  {
    var ts, edits := [t, u], [SemanticTokensEdit(0, 5, None)];
    assert SortByStart(edits) == edits;
    SpliceIsTokenwise(ts, edits);
    assert TokensAtOnce(ts, edits, 0) == [] + [] + ts[1..];
  }

  lemma ConvertedTwoTokens(text: string, t: SemanticToken, u: SemanticToken)
    requires t == SemanticToken(0, 2, 1, 0, 0) && u == SemanticToken(0, 1, 1, 0, 0)
    requires SmallConversion(Converter(text, UTF8, UTF16))
    ensures ConvertStream(text, UTF8, UTF16, [t, u])[1].deltaStart == 1
    ensures ConvertStream(text, UTF8, UTF16, [u])[0].deltaStart == 0
  {
    var conv := Converter(text, UTF8, UTF16);
    assert [t, u][1..] == [u];
    assert TokenStart(DOCUMENT_START, t) == LspPosition(0, 2) && TokenStart(LspPosition(0, 2), u) == LspPosition(0, 3);
    assert ConvertToken(conv, LspPosition(0, 2), LspPosition(0, 1), u).deltaStart == 1;
    assert ConvertToken(conv, LspPosition(0, 0), LspPosition(0, 0), u).deltaStart == 0;
    assert ConvertStream(text, UTF8, UTF16, [t, u])[1] == Walk(conv, LspPosition(0, 2), LspPosition(0, 1), [u])[0];
  }

  lemma SmallText(text: string)
    requires text == "\U{E9}ab"
    ensures SmallConversion(Converter(text, UTF8, UTF16))
  {
    SingleLine(text);
    assert CharToUnit(text, UTF8, 1) == 2 && CharToUnit(text, UTF16, 1) == 1;
    assert CharToUnit(text, UTF8, 2) == 3 && CharToUnit(text, UTF16, 2) == 2;
    assert LenUnits(text, UTF8) == 4;
    UnitToCharUnique(text, UTF8, 0, 0);
    UnitToCharUnique(text, UTF8, 1, 0);
    UnitToCharUnique(text, UTF8, 2, 1);
    UnitToCharUnique(text, UTF8, 3, 2);
  }

  /** UTF-8 to UTF-16 over a line that begins with one two-byte character. */
  predicate SmallConversion(conv: Conversion) {
    && conv(LspPosition(0, 0)) == conv(LspPosition(0, 1)) == LspPosition(0, 0)
    && conv(LspPosition(0, 2)) == LspPosition(0, 1)
    && conv(LspPosition(0, 3)) == LspPosition(0, 2)
  }

  /**
   Nor does an unchanged stream follow a change of the text: where a two-byte character gave way to
   two of one byte, the server sends no edit and the client's column is one short.
   */
  lemma ChangesMoveColumns(before: string, text: string, t: SemanticToken)
    requires before == "\U{E9}ab" && text == "abab" && t == SemanticToken(0, 2, 1, 0, 0)
    ensures !StaysCoherent(before, text, UTF16, CachedSemanticTokens("1", [t]), [])
  {
    SmallText(before);
    AsciiColumn(text);
    FirstColumn(before, t, LspPosition(0, 1));
    FirstColumn(text, t, LspPosition(0, 2));
    EmptyDelta(ConvertStream(before, UTF8, UTF16, [t]));
    EmptyDelta([t]);
  }

  lemma AsciiColumn(text: string)
    requires text == "abab"
    ensures LspToEncoding(text, LspPosition(0, 2), UTF8, UTF16) == LspPosition(0, 2)
  {
    SingleLine(text);
    assert CharToUnit(text, UTF8, 1) == CharToUnit(text, UTF16, 1) == 1;
    assert CharToUnit(text, UTF8, 2) == CharToUnit(text, UTF16, 2) == 2;
    UnitOfChar(text, UTF8, 2);
    LspColumn(text, LspPosition(0, 2), UTF8, UTF16);
  }

  lemma FirstColumn(text: string, t: SemanticToken, converted: LspPosition)
    requires t.deltaLine == 0 && LspToEncoding(text, LspPosition(0, t.deltaStart), UTF8, UTF16) == converted
    requires converted.line == 0
    ensures |ConvertStream(text, UTF8, UTF16, [t])| == 1
    ensures ConvertStream(text, UTF8, UTF16, [t])[0].deltaStart == converted.character
  {
    assert TokenStart(DOCUMENT_START, t) == LspPosition(0, t.deltaStart);
  }

  lemma EmptyDelta(ts: seq<SemanticToken>)
    ensures Spliced(ts, []) == ts
  {
    UnflattenFlatten(ts);
  }

  // ------------------------------------------------------------ responses

  /** A full or delta response. */
  datatype Response =
    | Tokens(fullId: Option<string>, data: seq<SemanticToken>)
    | TokensDelta(deltaId: Option<string>, edits: seq<SemanticTokensEdit>)
    | PartialTokensDelta(partialEdits: seq<SemanticTokensEdit>)

  /** What the client receives, and the document's cache slot afterwards. */
  function Outgoing(text: string, client: Encoding, cached: Option<CachedSemanticTokens>, r: Response)
    : (Response, Option<CachedSemanticTokens>)
  {
    match r
    case Tokens(id, data) =>
      (r.(data := ConvertStream(text, UTF8, client, data)),
       if id.Some? then Some(CachedSemanticTokens(id.value, data)) else cached)
    case TokensDelta(id, edits) =>
      (r.(edits := OutgoingEdits(text, client, cached, edits)),
       if cached.None? then None
       else Some(CachedSemanticTokens(if id.Some? then id.value else cached.value.resultId,
                                      Spliced(cached.value.data, edits))))
    case PartialTokensDelta(edits) =>
      (r.(partialEdits := OutgoingEdits(text, client, cached, edits)), cached)
  }

  /** Converts a response and keeps the cache slot: the cache only ever sees UTF-8 values. */
  method ModifyOutgoingDeltaResult(text: string, client: Encoding, cached: Option<CachedSemanticTokens>, r: Response)
    returns (sent: Response, slot: Option<CachedSemanticTokens>)
    ensures (sent, slot) == Outgoing(text, client, cached, r)
  {
    slot := cached;
    match r
    case Tokens(id, data) =>
      if id.Some? {
        slot := Some(CachedSemanticTokens(id.value, data));
      }
      var buffer := new SemanticToken[|data|](k requires 0 <= k < |data| => data[k]);
      assert buffer[..] == data;
      ConvertSeededTokenStream(text, buffer, UTF8, client, DOCUMENT_START, DOCUMENT_START);
      sent := r.(data := buffer[..]);
    case TokensDelta(id, edits) =>
      var buffer := new SemanticTokensEdit[|edits|](k requires 0 <= k < |edits| => edits[k]);
      assert buffer[..] == edits;
      ConvertSemanticTokensEdits(text, client, cached, buffer);
      sent := r.(edits := buffer[..]);
      if cached.Some? {
        var data := SpliceSemanticTokens(cached.value.data, edits);
        slot := Some(CachedSemanticTokens(if id.Some? then id.value else cached.value.resultId, data));
      }
    case PartialTokensDelta(edits) =>
      var buffer := new SemanticTokensEdit[|edits|](k requires 0 <= k < |edits| => edits[k]);
      assert buffer[..] == edits;
      ConvertSemanticTokensEdits(text, client, cached, buffer);
      sent := r.(partialEdits := buffer[..]);
  }

  // ------------------------------------------------------------ sessions

  /** The server-side cache slot, the stream the client holds for one document, and the text it was converted over. */
  datatype Session = Session(server: Option<CachedSemanticTokens>, client: Option<CachedSemanticTokens>, over: string)

  /** A client keeps a stream only under a result id, and splices deltas into it. */
  function ClientReceives(held: Option<CachedSemanticTokens>, r: Response): Option<CachedSemanticTokens> {
    match r
    case Tokens(Some(id), data) => Some(CachedSemanticTokens(id, data))
    case Tokens(None, _) => None
    case TokensDelta(id, edits) =>
      if held.None? then None
      else Some(CachedSemanticTokens(if id.Some? then id.value else held.value.resultId,
                                     Spliced(held.value.data, edits)))
    case PartialTokensDelta(_) => held
  }

  /** A response converted over the text of its time. */
  datatype Turn = Turn(text: string, response: Response)

  function Exchange(client: Encoding, s: Session, turn: Turn): Session {
    var (sent, slot) := Outgoing(turn.text, client, s.server, turn.response);
    Session(slot, ClientReceives(s.client, sent), if sent.PartialTokensDelta? then s.over else turn.text)
  }

  function Exchanges(client: Encoding, s: Session, turns: seq<Turn>): Session {
    if turns == [] then s
    else Exchange(client, Exchanges(client, s, turns[..|turns| - 1]), turns[|turns| - 1])
  }

  /** A delta answers a client that holds a result, with well-shaped edits of the cached stream. */
  predicate Answers(s: Session, r: Response) {
    match r
    case Tokens(_, _) => true
    case TokensDelta(_, edits) => s.client.Some? && s.server.Some? && WellShaped(s.server.value.data, edits)
    case PartialTokensDelta(_) => false
  }

  /** The runs of a delta move alike from the text of the held stream to the text now; UTF-8 is never converted. */
  predicate MovesAlikeSince(client: Encoding, s: Session, turn: Turn)
    requires Answers(s, turn.response)
  {
    match turn.response
    case TokensDelta(_, edits) =>
      client == UTF8 || RunsMoveAlike(s.over, turn.text, client, s.server.value.data, SortByStart(edits))
    case _ => true
  }

  predicate MaySendAll(client: Encoding, s: Session, turns: seq<Turn>) {
    turns == [] ||
    (var before, turn := Exchanges(client, s, turns[..|turns| - 1]), turns[|turns| - 1];
     && MaySendAll(client, s, turns[..|turns| - 1])
     && Answers(before, turn.response) && MovesAlikeSince(client, before, turn))
  }

  /** What the client holds is the conversion of what the server's next delta is computed against. */
  predicate InSync(client: Encoding, s: Session) {
    s.client.Some? ==>
      && s.server.Some?
      && s.client.value.resultId == s.server.value.resultId
      && s.client.value.data == ConvertStream(s.over, UTF8, client, s.server.value.data)
  }

  /** From sides in sync, a full response or a delta leaves them in sync exactly when its runs move alike. */
  lemma ExchangeInSyncIff(client: Encoding, s: Session, turn: Turn)
    requires InSync(client, s) && Answers(s, turn.response)
    ensures InSync(client, Exchange(client, s, turn)) <==> MovesAlikeSince(client, s, turn)
  {
    match turn.response
    case TokensDelta(_, edits) => DeltaInSyncIff(client, s, turn, edits);
    case _ =>
  }

  lemma DeltaInSyncIff(client: Encoding, s: Session, turn: Turn, edits: seq<SemanticTokensEdit>)
    requires InSync(client, s) && Answers(s, turn.response)
    requires turn.response.TokensDelta? && turn.response.edits == edits
    ensures InSync(client, Exchange(client, s, turn)) <==> MovesAlikeSince(client, s, turn)
  {
    assert InSync(client, Exchange(client, s, turn)) <==>
           StaysCoherent(s.over, turn.text, client, s.server.value, edits);
    if client != UTF8 {
      DeltaCoherentIff(s.over, turn.text, client, s.server.value, edits);
    }
  }

  /**
   Over every run of full and delta responses, with any changes of the text in between, client and
   server stay in sync when the runs of each delta move alike across the change before it.
   */
  lemma {:induction false} SessionStaysInSync(client: Encoding, s: Session, turns: seq<Turn>)
    requires InSync(client, s) && MaySendAll(client, s, turns)
    ensures InSync(client, Exchanges(client, s, turns))
  {
    if turns != [] {
      SessionStaysInSync(client, s, turns[..|turns| - 1]);
      ExchangeInSyncIff(client, Exchanges(client, s, turns[..|turns| - 1]), turns[|turns| - 1]);
    }
  }

  /** Over unchanged text admissible deltas always may be sent. */
  lemma AdmissibleMoveAlike(client: Encoding, s: Session, turn: Turn)
    requires Answers(s, turn.response) && turn.text == s.over
    requires turn.response.TokensDelta? ==> Admissible(turn.text, s.server.value.data, turn.response.edits)
    ensures MovesAlikeSince(client, s, turn)
  {
    if turn.response.TokensDelta? && client != UTF8 {
      DeltaCoherence(turn.text, client, s.server.value, turn.response.edits);
      DeltaCoherentIff(s.over, turn.text, client, s.server.value, turn.response.edits);
    }
  }
}
