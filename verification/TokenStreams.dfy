/**
 Semantic-token streams (LSP 3.17, "Semantic Tokens"): each token is relative to
 the one before it, so converting a stream rebuilds absolute positions, converts
 them and re-relativizes against the previous converted token. The walk is stated
 for any conversion of positions; `Converter` is the text's own.
 */
module TokenStreams {
  import opened MachineInts
  import opened TextEncoding
  import opened TextLines
  import opened Positions

  datatype SemanticToken =
    SemanticToken(deltaLine: u32, deltaStart: u32, length: u32, tokenType: u32, modifiers: u32)

  /** A token's absolute extent, with the fields conversion must not touch. */
  datatype Extent = Extent(start: LspPosition, end: LspPosition, tokenType: u32, modifiers: u32)

  type Conversion = LspPosition -> LspPosition

  const DOCUMENT_START := LspPosition(0, 0)

  function Converter(text: string, source: Encoding, target: Encoding): Conversion {
    p => LspToEncoding(text, p, source, target)
  }

  /** The absolute start of a token that follows one starting at `p`. */
  function TokenStart(p: LspPosition, t: SemanticToken): LspPosition {
    LspPosition(
      SaturatingAdd(p.line, t.deltaLine),
      if t.deltaLine == 0 then SaturatingAdd(p.character, t.deltaStart) else t.deltaStart)
  }

  function TokenEnd(start: LspPosition, t: SemanticToken): LspPosition {
    LspPosition(start.line, SaturatingAdd(start.character, t.length))
  }

  /** The position the stream after `ts` is relative to. */
  function After(p: LspPosition, ts: seq<SemanticToken>): LspPosition
    decreases ts
  {
    if ts == [] then p else After(TokenStart(p, ts[0]), ts[1..])
  }

  function Decode(p: LspPosition, ts: seq<SemanticToken>): (r: seq<Extent>)
    ensures |r| == |ts|
    decreases ts
  {
    if ts == [] then []
    else
      var start := TokenStart(p, ts[0]);
      [Extent(start, TokenEnd(start, ts[0]), ts[0].tokenType, ts[0].modifiers)] + Decode(start, ts[1..])
  }

  /** Rewrites a token against a previous start, given its own start and end. */
  function Relativize(previous: LspPosition, start: LspPosition, end: LspPosition, t: SemanticToken): SemanticToken {
    t.(deltaLine := SaturatingSub(start.line, previous.line),
       deltaStart := if start.line == previous.line then SaturatingSub(start.character, previous.character)
                     else start.character,
       length := SaturatingSub(end.character, start.character))
  }

  function ConvertToken(conv: Conversion, previousSource: LspPosition, previousTarget: LspPosition,
                        t: SemanticToken): SemanticToken {
    var start := TokenStart(previousSource, t);
    Relativize(previousTarget, conv(start), conv(TokenEnd(start, t)), t)
  }

  function Walk(conv: Conversion, previousSource: LspPosition, previousTarget: LspPosition, ts: seq<SemanticToken>)
    : (r: seq<SemanticToken>)
    ensures |r| == |ts|
    decreases ts
  {
    if ts == [] then []
    else
      var start := TokenStart(previousSource, ts[0]);
      [ConvertToken(conv, previousSource, previousTarget, ts[0])] + Walk(conv, start, conv(start), ts[1..])
  }

  /** The conversion of a stream from a pair of seeds; the same encoding passes through. */
  function ConvertSeeded(text: string, source: Encoding, target: Encoding,
                         previousSource: LspPosition, previousTarget: LspPosition, ts: seq<SemanticToken>)
    : (r: seq<SemanticToken>)
    ensures |r| == |ts|
  {
    if source == target then ts else Walk(Converter(text, source, target), previousSource, previousTarget, ts)
  }

  /** Conversion seeded with one source position and its own conversion. */
  function ConvertFrom(text: string, source: Encoding, target: Encoding, p: LspPosition, ts: seq<SemanticToken>)
    : (r: seq<SemanticToken>)
    ensures |r| == |ts|
  {
    ConvertSeeded(text, source, target, p, LspToEncoding(text, p, source, target), ts)
  }

  /** Conversion of a whole stream: both seeds are the document's start. */
  function ConvertStream(text: string, source: Encoding, target: Encoding, ts: seq<SemanticToken>)
    : (r: seq<SemanticToken>)
    ensures |r| == |ts|
  {
    ConvertSeeded(text, source, target, DOCUMENT_START, DOCUMENT_START, ts)
  }

  // ------------------------------------------------------------ imperative form

  /** Converts a stream between two encodings, in place. */
  method ConvertSeededTokenStream(text: string, data: array<SemanticToken>, source: Encoding, target: Encoding,
                                  seedSource: LspPosition, seedTarget: LspPosition)
    modifies data
    ensures data[..] == ConvertSeeded(text, source, target, seedSource, seedTarget, old(data[..]))
  {
    if source != target {
      WalkInPlace(Converter(text, source, target), data, seedSource, seedTarget);
    }
  }

  /** The token walk: rewrites each token against the one before it. */
  method WalkInPlace(conv: Conversion, data: array<SemanticToken>, seedSource: LspPosition, seedTarget: LspPosition)
    modifies data
    ensures data[..] == Walk(conv, seedSource, seedTarget, old(data[..]))
  {
    ghost var was := data[..];
    ghost var out := Walk(conv, seedSource, seedTarget, was);
    var previousSource, previousTarget := seedSource, seedTarget;
    for i := 0 to data.Length
      invariant forall k :: 0 <= k < i ==> data[k] == out[k]
      invariant forall k :: i <= k < data.Length ==> data[k] == was[k]
      invariant out[i..] == Walk(conv, previousSource, previousTarget, was[i..])
    {
      WalkHead(conv, previousSource, previousTarget, was, out, i);
      var token := data[i];
      var start := TokenStart(previousSource, token);
      var targetStart := conv(start);
      data[i] := Relativize(previousTarget, targetStart, conv(TokenEnd(start, token)), token);
      previousSource, previousTarget := start, targetStart;
    }
  }

  /** One unfolding of the walk, at an index. */
  lemma WalkHead(conv: Conversion, p: LspPosition, q: LspPosition,
                 was: seq<SemanticToken>, out: seq<SemanticToken>, i: nat)
    requires i < |was| == |out| && out[i..] == Walk(conv, p, q, was[i..])
    ensures out[i] == ConvertToken(conv, p, q, was[i])
    ensures var start := TokenStart(p, was[i]);
            out[i + 1..] == Walk(conv, start, conv(start), was[i + 1..])
  {
    assert was[i..][1..] == was[i + 1..];
    assert out[i] == out[i..][0] && out[i + 1..] == out[i..][1..];
  }

  /** Folds a prefix's deltas into the position the walk continues from. */
  method AbsolutePosition(prefix: seq<SemanticToken>) returns (position: LspPosition)
    ensures position == After(DOCUMENT_START, prefix)
  {
    position := DOCUMENT_START;
    for i := 0 to |prefix|
      invariant After(position, prefix[i..]) == After(DOCUMENT_START, prefix)
    {
      assert prefix[i..][1..] == prefix[i + 1..];
      position := TokenStart(position, prefix[i]);
    }
  }

  /**
   The protocol's own example (LSP 3.17, "Semantic Tokens"): three tokens at 2:5, 2:10 and 5:2, the
   second relative to the first's start, the third to its line.
   */
  lemma ProtocolExample(ts: seq<SemanticToken>)
    requires ts == [SemanticToken(2, 5, 3, 0, 3), SemanticToken(0, 5, 4, 1, 0), SemanticToken(3, 2, 7, 2, 0)]
    ensures Decode(DOCUMENT_START, ts) ==
            [Extent(LspPosition(2, 5), LspPosition(2, 8), 0, 3), Extent(LspPosition(2, 10), LspPosition(2, 14), 1, 0),
             Extent(LspPosition(5, 2), LspPosition(5, 9), 2, 0)]
    ensures After(DOCUMENT_START, ts) == LspPosition(5, 2)
  {
    assert ts[1..][1..] == ts[2..] && ts[2..][1..] == [];
    assert ts[1..][0] == ts[1] && ts[2..][0] == ts[2];
    assert Decode(LspPosition(2, 10), ts[2..]) == [Extent(LspPosition(5, 2), LspPosition(5, 9), 2, 0)];
    assert Decode(LspPosition(2, 5), ts[1..]) ==
           [Extent(LspPosition(2, 10), LspPosition(2, 14), 1, 0), Extent(LspPosition(5, 2), LspPosition(5, 9), 2, 0)];
    assert After(LspPosition(2, 10), ts[2..]) == LspPosition(5, 2);
  }

  /** Between equal encodings a stream passes through, whatever its seeds and extents. */
  lemma SameEncodingPasses(text: string, e: Encoding, p: LspPosition, q: LspPosition, ts: seq<SemanticToken>)
    ensures ConvertSeeded(text, e, e, p, q, ts) == ts
  {
  }

  // ------------------------------------------------------------ seeding

  lemma {:induction false} AfterConcat(p: LspPosition, a: seq<SemanticToken>, b: seq<SemanticToken>)
    ensures After(p, a + b) == After(After(p, a), b)
    decreases a
  {
    if a == [] {
      assert a + b == b;
    } else {
      assert (a + b)[1..] == a[1..] + b;
      AfterConcat(TokenStart(p, a[0]), a[1..], b);
    }
  }

  lemma {:induction false} WalkConcat(conv: Conversion, p: LspPosition, a: seq<SemanticToken>, b: seq<SemanticToken>)
    ensures Walk(conv, p, conv(p), a + b) ==
            Walk(conv, p, conv(p), a) + Walk(conv, After(p, a), conv(After(p, a)), b)
    decreases a
  {
    if a == [] {
      assert a + b == b;
    } else {
      assert (a + b)[1..] == a[1..] + b;
      WalkConcat(conv, TokenStart(p, a[0]), a[1..], b);
    }
  }

  /**
   Seeding is a homomorphism: a suffix converts as in the whole stream when its seeds are
   the prefix's fold and that fold's conversion. Holds for every stream, clamped ones included.
   */
  lemma SeedingIsHomomorphic(text: string, source: Encoding, target: Encoding,
                             p: LspPosition, a: seq<SemanticToken>, b: seq<SemanticToken>)
    ensures ConvertFrom(text, source, target, p, a + b) ==
            ConvertFrom(text, source, target, p, a) + ConvertFrom(text, source, target, After(p, a), b)
  {
    if source != target {
      WalkConcat(Converter(text, source, target), p, a, b);
    }
  }

  /** The document's start converts to itself, so a whole stream is a stream seeded there. */
  lemma StartConvertsToStart(text: string, source: Encoding, target: Encoding, ts: seq<SemanticToken>)
    ensures LspToEncoding(text, DOCUMENT_START, source, target) == DOCUMENT_START
    ensures ConvertStream(text, source, target, ts) == ConvertFrom(text, source, target, DOCUMENT_START, ts)
  {
    if source != target {
      var line := Line(text, 0);
      ColumnCountsChars(line, 0, source, target);
      assert CharToUnit(line, source, 0) == 0;
      CharColumnOfChar(line, source, 0);
    }
  }

  // ------------------------------------------------------------ exactness

  function ConvertExtents(conv: Conversion, xs: seq<Extent>): (r: seq<Extent>)
    ensures |r| == |xs|
  {
    if xs == [] then []
    else [xs[0].(start := conv(xs[0].start), end := conv(xs[0].end))] + ConvertExtents(conv, xs[1..])
  }

  predicate Ordered(p: LspPosition, q: LspPosition) {
    p.line < q.line || (p.line == q.line && p.character <= q.character)
  }

  /** If `p` and `q` are on one line in order, so are their conversions. */
  predicate LineKept(conv: Conversion, p: LspPosition, q: LspPosition) {
    p.line == q.line ==>
      conv(p).line == conv(q).line && (p.character <= q.character ==> conv(p).character <= conv(q).character)
  }

  /** Positions of one line convert to one line, in order. */
  ghost predicate LineWise(conv: Conversion) {
    forall p: LspPosition, q: LspPosition :: LineKept(conv, p, q)
  }

  /** No conversion of a start falls behind the conversion of the previous one. */
  predicate WalkOrdered(conv: Conversion, p: LspPosition, ts: seq<SemanticToken>)
    decreases ts
  {
    ts == [] ||
    (var start := TokenStart(p, ts[0]);
     Ordered(conv(p), conv(start)) && WalkOrdered(conv, start, ts[1..]))
  }

  lemma LineWisePair(conv: Conversion, p: LspPosition, q: LspPosition)
    requires LineWise(conv) && p.line == q.line && p.character <= q.character
    ensures conv(p).line == conv(q).line && conv(p).character <= conv(q).character
  {
    assert LineKept(conv, p, q);
  }

  /** A rewritten token gives back its start exactly when that does not precede the previous one. */
  lemma RelativizeExactIff(previous: LspPosition, start: LspPosition, end: LspPosition, t: SemanticToken)
    requires start.line == end.line && start.character <= end.character
    ensures var out := Relativize(previous, start, end, t);
            && (TokenStart(previous, out) == start <==> Ordered(previous, start))
            && TokenEnd(start, out) == end
  {
  }

  /** From the converted seed, a token decodes to its converted extent exactly when order is kept. */
  lemma TokenExactIff(conv: Conversion, p: LspPosition, t: SemanticToken)
    requires LineWise(conv)
    ensures var q, start, out := conv(p), TokenStart(p, t), ConvertToken(conv, p, conv(p), t);
            && (TokenStart(q, out) == conv(start) <==> Ordered(q, conv(start)))
            && TokenEnd(conv(start), out) == conv(TokenEnd(start, t))
  {
    var start := TokenStart(p, t);
    LineWisePair(conv, start, TokenEnd(start, t));
    RelativizeExactIff(conv(p), conv(start), conv(TokenEnd(start, t)), t);
  }

  lemma {:induction false} WalkExactIff(conv: Conversion, p: LspPosition, ts: seq<SemanticToken>)
    requires LineWise(conv)
    ensures Decode(conv(p), Walk(conv, p, conv(p), ts)) == ConvertExtents(conv, Decode(p, ts)) <==>
            WalkOrdered(conv, p, ts)
    decreases ts
  {
    if ts != [] {
      var start := TokenStart(p, ts[0]);
      var xs := Decode(conv(p), Walk(conv, p, conv(p), ts));
      var ys := ConvertExtents(conv, Decode(p, ts));
      TokenExactIff(conv, p, ts[0]);
      if Ordered(conv(p), conv(start)) {
        WalkExactIff(conv, start, ts[1..]);
        assert xs[0] == ys[0];
        assert xs[1..] == Decode(conv(start), Walk(conv, start, conv(start), ts[1..]));
        assert ys[1..] == ConvertExtents(conv, Decode(start, ts[1..]));
        assert xs == [xs[0]] + xs[1..] && ys == [ys[0]] + ys[1..];
      } else {
        assert xs[0].start != ys[0].start;
      }
    }
  }

  /**
   The walk keeps its order at a token: the token stays on the previous token's line, or follows
   one before the text's last line. Otherwise both clamp to one line, whose characters at their
   columns must be in order, unless the wire's columns saturate there.
   */
  predicate StepKeepsOrder(text: string, source: Encoding, target: Encoding, p: LspPosition, t: SemanticToken) {
    var start := TokenStart(p, t);
    || t.deltaLine == 0
    || p.line < Min(start.line, LineCount(text) - 1)
    || WireOrdered(LineOf(text, FromLsp(start)), source, target, p.character, start.character)
  }

  predicate KeepsOrder(text: string, source: Encoding, target: Encoding, p: LspPosition, ts: seq<SemanticToken>)
    decreases ts
  {
    ts == [] ||
    (StepKeepsOrder(text, source, target, p, ts[0]) &&
     KeepsOrder(text, source, target, TokenStart(p, ts[0]), ts[1..]))
  }

  /** Every token starts on a line of the text that the wire can name. */
  predicate InDocument(text: string, p: LspPosition, ts: seq<SemanticToken>)
    decreases ts
  {
    ts == [] ||
    (p.line + ts[0].deltaLine < Min(LineCount(text), U32_MAX + 1) &&
     InDocument(text, TokenStart(p, ts[0]), ts[1..]))
  }

  lemma ConverterIsLineWise(text: string, source: Encoding, target: Encoding)
    ensures LineWise(Converter(text, source, target))
  {
    var conv := Converter(text, source, target);
    forall p: LspPosition, q: LspPosition ensures LineKept(conv, p, q) {
      if p.line == q.line {
        if p.character <= q.character {
          LspConversionMonotone(text, p, q, source, target);
        } else {
          LspConversionMonotone(text, q, p, source, target);
        }
        OneLineConverts(text, p, q, source, target);
      }
    }
  }

  lemma OneLineConverts(text: string, p: LspPosition, q: LspPosition, source: Encoding, target: Encoding)
    requires p.line == q.line
    ensures LspToEncoding(text, p, source, target).line == LspToEncoding(text, q, source, target).line
  {
    if source != target {
      ConvertedLine(text, p, source, target);
      ConvertedLine(text, q, source, target);
    }
  }

  /** A token's converted start does not fall behind the previous one exactly when its step keeps order. */
  lemma StepOrdered(text: string, source: Encoding, target: Encoding, p: LspPosition, t: SemanticToken)
    requires source != target
    ensures StepKeepsOrder(text, source, target, p, t) <==>
            Ordered(LspToEncoding(text, p, source, target),
                    LspToEncoding(text, TokenStart(p, t), source, target))
  {
    var start := TokenStart(p, t);
    LspConvertedOrderIff(text, p, start, source, target);
    if t.deltaLine == 0 {
      CharColumnMonotone(LineOf(text, FromLsp(start)), source, p.character, start.character);
    }
  }

  lemma {:induction false} KeepsOrderIffWalkOrdered(text: string, source: Encoding, target: Encoding,
                                                    p: LspPosition, ts: seq<SemanticToken>)
    requires source != target
    ensures KeepsOrder(text, source, target, p, ts) <==> WalkOrdered(Converter(text, source, target), p, ts)
    decreases ts
  {
    if ts != [] {
      StepOrdered(text, source, target, p, ts[0]);
      KeepsOrderIffWalkOrdered(text, source, target, TokenStart(p, ts[0]), ts[1..]);
    }
  }

  /**
   Re-relativization is exact, token by token, start and end, exactly for the
   streams whose steps keep order.
   */
  lemma ConversionExactIff(text: string, source: Encoding, target: Encoding, ts: seq<SemanticToken>)
    requires source != target
    ensures Decode(DOCUMENT_START, ConvertStream(text, source, target, ts)) ==
            ConvertExtents(Converter(text, source, target), Decode(DOCUMENT_START, ts)) <==>
            KeepsOrder(text, source, target, DOCUMENT_START, ts)
  {
    StartConvertsToStart(text, source, target, ts);
    ConverterIsLineWise(text, source, target);
    WalkExactIff(Converter(text, source, target), DOCUMENT_START, ts);
    KeepsOrderIffWalkOrdered(text, source, target, DOCUMENT_START, ts);
  }

  /** Streams whose tokens lie in the document keep order. */
  lemma {:induction false} InDocumentKeepsOrder(text: string, source: Encoding, target: Encoding,
                                                p: LspPosition, ts: seq<SemanticToken>)
    requires InDocument(text, p, ts)
    ensures KeepsOrder(text, source, target, p, ts)
    decreases ts
  {
    if ts != [] {
      InDocumentKeepsOrder(text, source, target, TokenStart(p, ts[0]), ts[1..]);
    }
  }

  /** In-document streams convert exactly. */
  lemma InDocumentConvertsExactly(text: string, source: Encoding, target: Encoding, ts: seq<SemanticToken>)
    requires source != target && InDocument(text, DOCUMENT_START, ts)
    ensures Decode(DOCUMENT_START, ConvertStream(text, source, target, ts)) ==
            ConvertExtents(Converter(text, source, target), Decode(DOCUMENT_START, ts))
  {
    InDocumentKeepsOrder(text, source, target, DOCUMENT_START, ts);
    ConversionExactIff(text, source, target, ts);
  }

  // ------------------------------------------------------------ round trip

  /** No sum of the token's absolute position saturates. */
  predicate Unsaturated(p: LspPosition, t: SemanticToken) {
    && p.line + t.deltaLine <= U32_MAX
    && (t.deltaLine == 0 ==> p.character + t.deltaStart <= U32_MAX)
    && TokenStart(p, t).character + t.length <= U32_MAX
  }

  predicate AllUnsaturated(p: LspPosition, ts: seq<SemanticToken>)
    decreases ts
  {
    ts == [] || (Unsaturated(p, ts[0]) && AllUnsaturated(TokenStart(p, ts[0]), ts[1..]))
  }

  /** Tokens whose starts and ends are in-line character boundaries of the text. */
  ghost predicate OnBoundaries(text: string, e: Encoding, p: LspPosition, ts: seq<SemanticToken>)
    decreases ts
  {
    ts == [] ||
    (var start := TokenStart(p, ts[0]);
     && OnBoundary(text, e, FromLsp(start))
     && OnBoundary(text, e, FromLsp(TokenEnd(start, ts[0])))
     && OnBoundaries(text, e, start, ts[1..]))
  }

  /** What `conv` sends and `back` takes back is not ahead of what was sent. */
  predicate NotAheadAt(back: Conversion, conv: Conversion, p: LspPosition) {
    back(conv(p)).line <= p.line && back(conv(p)).character <= p.character
  }

  predicate LinesOrdered(back: Conversion, p: LspPosition, q: LspPosition) {
    p.line <= q.line ==> back(p).line <= back(q).line
  }

  /** That holds everywhere, and `back` keeps lines in order. */
  ghost predicate BackNeverAhead(back: Conversion, conv: Conversion) {
    && (forall p: LspPosition :: NotAheadAt(back, conv, p))
    && (forall p: LspPosition, q: LspPosition :: LinesOrdered(back, p, q))
  }

  /** `back` undoes `conv` on the start and the end of a token. */
  predicate UndoneAt(back: Conversion, conv: Conversion, p: LspPosition, t: SemanticToken) {
    var start := TokenStart(p, t);
    back(conv(start)) == start && back(conv(TokenEnd(start, t))) == TokenEnd(start, t)
  }

  /** ... and on every start and end of a stream. */
  predicate Undoes(back: Conversion, conv: Conversion, p: LspPosition, ts: seq<SemanticToken>)
    decreases ts
  {
    ts == [] || (UndoneAt(back, conv, p, ts[0]) && Undoes(back, conv, TokenStart(p, ts[0]), ts[1..]))
  }

  /** Lines that are equal come back equal. */
  lemma OneLineBack(back: Conversion, conv: Conversion, p: LspPosition, q: LspPosition)
    requires LineWise(conv) && BackNeverAhead(back, conv) && p.line == q.line
    ensures back(conv(p)).line == back(conv(q)).line
  {
    assert LineKept(conv, p, q);
    assert LinesOrdered(back, conv(p), conv(q)) && LinesOrdered(back, conv(q), conv(p));
  }

  /** After a position that comes back, a token comes back exactly when its start and its end do. */
  lemma TokenRoundTripIff(back: Conversion, conv: Conversion, p: LspPosition, t: SemanticToken)
    requires LineWise(conv) && BackNeverAhead(back, conv) && Unsaturated(p, t) && back(conv(p)) == p
    ensures var out := ConvertToken(conv, p, conv(p), t);
            && (ConvertToken(back, conv(p), p, out) == t <==> UndoneAt(back, conv, p, t))
            && (UndoneAt(back, conv, p, t) ==> TokenStart(conv(p), out) == conv(TokenStart(p, t)))
  {
    var start := TokenStart(p, t);
    var end := TokenEnd(start, t);
    TokenExactIff(conv, p, t);
    assert NotAheadAt(back, conv, start) && NotAheadAt(back, conv, end);
    OneLineBack(back, conv, start, end);
    if p.line == start.line {
      OneLineBack(back, conv, p, start);
    }
    if Ordered(conv(p), conv(start)) {
      RelativizedIff(p, t, back(conv(start)), back(conv(end)));
    } else {
      DisorderedLosesLine(back, conv, p, t);
    }
  }

  /**
   Rewritten against positions not ahead of its own, that share a line when its own do, an
   unsaturated token stays as it is exactly when they are its own.
   */
  lemma RelativizedIff(p: LspPosition, t: SemanticToken, start: LspPosition, end: LspPosition)
    requires Unsaturated(p, t) && start.line == end.line
    requires start.line <= TokenStart(p, t).line && start.character <= TokenStart(p, t).character
    requires end.character <= TokenEnd(TokenStart(p, t), t).character
    requires p.line == TokenStart(p, t).line ==> start.line == p.line
    requires p == TokenStart(p, t) ==> start == p
    requires t.length == 0 ==> start == end
    ensures Relativize(p, start, end, t) == t <==> start == TokenStart(p, t) && end == TokenEnd(TokenStart(p, t), t)
  {
  }

  /** Out of order, the token's line is lost and its start does not come back. */
  lemma DisorderedLosesLine(back: Conversion, conv: Conversion, p: LspPosition, t: SemanticToken)
    requires LineWise(conv) && BackNeverAhead(back, conv) && Unsaturated(p, t) && back(conv(p)) == p
    requires !Ordered(conv(p), conv(TokenStart(p, t)))
    ensures ConvertToken(back, conv(p), p, ConvertToken(conv, p, conv(p), t)) != t
    ensures back(conv(TokenStart(p, t))) != TokenStart(p, t)
  {
    var start, q := TokenStart(p, t), conv(p);
    var out := ConvertToken(conv, p, q, t);
    if p.line == start.line {
      LineWisePair(conv, p, start);
    }
    assert LinesOrdered(back, conv(start), q);
    LostLine(q, p, t, out, back(TokenStart(q, out)), back(TokenEnd(TokenStart(q, out), out)));
    assert LinesOrdered(back, TokenStart(q, out), q);
  }

  /** A token that went down lines and is rewritten on its predecessor's line is another token. */
  lemma LostLine(q: LspPosition, p: LspPosition, t: SemanticToken, out: SemanticToken, start: LspPosition, end: LspPosition)
    requires out.deltaLine == 0
    ensures TokenStart(q, out).line == q.line
    ensures start.line <= p.line && t.deltaLine > 0 ==> Relativize(p, start, end, out) != t
  {
  }

  /** Converting the stream after `p` back restores it. */
  predicate RoundTrips(back: Conversion, conv: Conversion, p: LspPosition, ts: seq<SemanticToken>) {
    Walk(back, conv(p), p, Walk(conv, p, conv(p), ts)) == ts
  }

  /** A stream comes back exactly when its first token and the rest after it do. */
  lemma RoundTripsUnfolds(back: Conversion, conv: Conversion, p: LspPosition, ts: seq<SemanticToken>)
    requires ts != []
    ensures var start, out := TokenStart(p, ts[0]), ConvertToken(conv, p, conv(p), ts[0]);
            RoundTrips(back, conv, p, ts) <==>
            && ConvertToken(back, conv(p), p, out) == ts[0]
            && Walk(back, TokenStart(conv(p), out), back(TokenStart(conv(p), out)),
                    Walk(conv, start, conv(start), ts[1..])) == ts[1..]
  {
    var start, out := TokenStart(p, ts[0]), ConvertToken(conv, p, conv(p), ts[0]);
    WalkCons(back, conv(p), p, out, Walk(conv, start, conv(start), ts[1..]));
    var x := ConvertToken(back, conv(p), p, out);
    var xs := Walk(back, TokenStart(conv(p), out), back(TokenStart(conv(p), out)),
                   Walk(conv, start, conv(start), ts[1..]));
    assert ([x] + xs)[0] == x && ([x] + xs)[1..] == xs;
    assert ts == [ts[0]] + ts[1..];
  }

  lemma {:induction false} WalkRoundTripIff(back: Conversion, conv: Conversion, p: LspPosition, ts: seq<SemanticToken>)
    requires LineWise(conv) && BackNeverAhead(back, conv) && AllUnsaturated(p, ts) && back(conv(p)) == p
    ensures RoundTrips(back, conv, p, ts) <==> Undoes(back, conv, p, ts)
    decreases ts
  {
    if ts != [] {
      RoundTripsUnfolds(back, conv, p, ts);
      TokenRoundTripIff(back, conv, p, ts[0]);
      if UndoneAt(back, conv, p, ts[0]) {
        WalkRoundTripIff(back, conv, TokenStart(p, ts[0]), ts[1..]);
      }
    }
  }

  lemma WalkCons(conv: Conversion, p: LspPosition, q: LspPosition, t: SemanticToken, rest: seq<SemanticToken>)
    ensures Walk(conv, p, q, [t] + rest) ==
            [ConvertToken(conv, p, q, t)] + Walk(conv, TokenStart(p, t), conv(TokenStart(p, t)), rest)
  {
    assert ([t] + rest)[1..] == rest;
  }

  lemma ConverterNeverAhead(text: string, client: Encoding)
    requires client != UTF8
    ensures BackNeverAhead(Converter(text, client, UTF8), Converter(text, UTF8, client))
  {
    var back, conv := Converter(text, client, UTF8), Converter(text, UTF8, client);
    forall p: LspPosition ensures NotAheadAt(back, conv, p) {
      NeverAhead(text, p, client);
    }
    forall p: LspPosition, q: LspPosition ensures LinesOrdered(back, p, q) {
      ConvertedLine(text, p, client, UTF8);
      ConvertedLine(text, q, client, UTF8);
    }
  }

  lemma {:induction false} UndoesIffBoundaries(text: string, client: Encoding, p: LspPosition, ts: seq<SemanticToken>)
    requires client != UTF8
    ensures Undoes(Converter(text, client, UTF8), Converter(text, UTF8, client), p, ts) <==>
            OnBoundaries(text, UTF8, p, ts)
    decreases ts
  {
    if ts != [] {
      var start := TokenStart(p, ts[0]);
      LspRoundTripIff(text, start, client);
      LspRoundTripIff(text, TokenEnd(start, ts[0]), client);
      UndoesIffBoundaries(text, client, start, ts[1..]);
    }
  }

  /** From a position that converts to itself, an unsaturated stream comes back exactly when it is on boundaries. */
  lemma SeededRoundTripIff(text: string, client: Encoding, p: LspPosition, ts: seq<SemanticToken>)
    requires client != UTF8 && AllUnsaturated(p, ts)
    requires LspToEncoding(text, p, UTF8, client) == LspToEncoding(text, p, client, UTF8) == p
    ensures ConvertSeeded(text, client, UTF8, p, p, ConvertSeeded(text, UTF8, client, p, p, ts)) == ts <==>
            OnBoundaries(text, UTF8, p, ts)
  {
    ConverterIsLineWise(text, UTF8, client);
    ConverterNeverAhead(text, client);
    WalkRoundTripIff(Converter(text, client, UTF8), Converter(text, UTF8, client), p, ts);
    UndoesIffBoundaries(text, client, p, ts);
  }

  /**
   Outgoing then Incoming gives back an unsaturated stream exactly when all its starts and ends are
   in-line character boundaries.
   */
  lemma RoundTripIff(text: string, client: Encoding, ts: seq<SemanticToken>)
    requires client != UTF8 && AllUnsaturated(DOCUMENT_START, ts)
    ensures ConvertStream(text, client, UTF8, ConvertStream(text, UTF8, client, ts)) == ts <==>
            OnBoundaries(text, UTF8, DOCUMENT_START, ts)
  {
    StartConvertsToStart(text, UTF8, client, ts);
    StartConvertsToStart(text, client, UTF8, ts);
    SeededRoundTripIff(text, client, DOCUMENT_START, ts);
  }
}
