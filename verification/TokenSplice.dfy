/**
 Splicing semantic-token edits into a stream (LSP 3.17, "Requesting semantic token
 delta for a whole file"). Edits index the flat array of five numbers per token.
 */
module TokenSplice {
  import opened Wrappers
  import opened MachineInts
  import opened TokenStreams

  const TOKEN_WIDTH: nat := 5

  datatype SemanticTokensEdit =
    SemanticTokensEdit(start: u32, deleteCount: u32, data: Option<seq<SemanticToken>>)
  {
    function Tokens(): seq<SemanticToken> { match data case Some(ts) => ts case None => [] }

    function End(): nat { start + deleteCount }
  }

  function Numbers(t: SemanticToken): seq<u32> {
    [t.deltaLine, t.deltaStart, t.length, t.tokenType, t.modifiers]
  }

  /** The wire's flat array. */
  function Flatten(ts: seq<SemanticToken>): (flat: seq<u32>)
    ensures |flat| == TOKEN_WIDTH * |ts|
  {
    if ts == [] then [] else Numbers(ts[0]) + Flatten(ts[1..])
  }

  /** Regroups by five; an incomplete last group is dropped. */
  function Unflatten(flat: seq<u32>): (ts: seq<SemanticToken>)
    ensures |ts| == |flat| / TOKEN_WIDTH
  {
    if |flat| < TOKEN_WIDTH then []
    else [SemanticToken(flat[0], flat[1], flat[2], flat[3], flat[4])] + Unflatten(flat[TOKEN_WIDTH..])
  }

  // ------------------------------------------------------------ stable sort

  function InsertByStart(e: SemanticTokensEdit, es: seq<SemanticTokensEdit>): seq<SemanticTokensEdit> {
    if es == [] || e.start <= es[0].start then [e] + es else [es[0]] + InsertByStart(e, es[1..])
  }

  /** `sort_by_key(|edit| edit.start)`. */
  function SortByStart(es: seq<SemanticTokensEdit>): seq<SemanticTokensEdit> {
    if es == [] then [] else InsertByStart(es[0], SortByStart(es[1..]))
  }

  predicate SortedByStart(es: seq<SemanticTokensEdit>) {
    |es| <= 1 || (es[0].start <= es[1].start && SortedByStart(es[1..]))
  }

  /** The edits at one start, in list order. */
  function AtStart(es: seq<SemanticTokensEdit>, start: u32): seq<SemanticTokensEdit> {
    if es == [] then []
    else if es[0].start == start then [es[0]] + AtStart(es[1..], start)
    else AtStart(es[1..], start)
  }

  lemma {:induction false} InsertIsSorted(e: SemanticTokensEdit, es: seq<SemanticTokensEdit>)
    requires SortedByStart(es)
    ensures SortedByStart(InsertByStart(e, es))
  {
    if es == [] || e.start <= es[0].start {
      assert ([e] + es)[1..] == es;
    } else {
      var rest := InsertByStart(e, es[1..]);
      InsertIsSorted(e, es[1..]);
      assert rest[0] == e || rest[0] == es[1];
      assert ([es[0]] + rest)[1..] == rest;
    }
  }

  lemma {:induction false} InsertIsStable(e: SemanticTokensEdit, es: seq<SemanticTokensEdit>, start: u32)
    ensures AtStart(InsertByStart(e, es), start) == if e.start == start then [e] + AtStart(es, start)
                                                    else AtStart(es, start)
  {
    var r := InsertByStart(e, es);
    if es == [] || e.start <= es[0].start {
      assert r[1..] == es;
    } else {
      InsertIsStable(e, es[1..], start);
      assert r[0] == es[0] && r[1..] == InsertByStart(e, es[1..]);
    }
  }

  /** The sort orders edits by start and keeps list order at equal starts. */
  lemma {:induction false} SortIsStable(es: seq<SemanticTokensEdit>, start: u32)
    ensures SortedByStart(SortByStart(es))
    ensures AtStart(SortByStart(es), start) == AtStart(es, start)
  {
    if es != [] {
      SortIsStable(es[1..], start);
      InsertIsSorted(es[0], SortByStart(es[1..]));
      InsertIsStable(es[0], SortByStart(es[1..]), start);
    }
  }

  // ------------------------------------------------------------ back to front

  /** One edit applied to the flat array, clamped to it. */
  function SpliceOne(flat: seq<u32>, e: SemanticTokensEdit): seq<u32> {
    var start := Min(e.start, |flat|);
    var end := Min(start + e.deleteCount, |flat|);
    flat[..start] + Flatten(e.Tokens()) + flat[end..]
  }

  /** The edits applied last to first. */
  function BackToFront(flat: seq<u32>, es: seq<SemanticTokensEdit>): seq<u32> {
    if es == [] then flat else SpliceOne(BackToFront(flat, es[1..]), es[0])
  }

  function Spliced(cached: seq<SemanticToken>, edits: seq<SemanticTokensEdit>): seq<SemanticToken> {
    Unflatten(BackToFront(Flatten(cached), SortByStart(edits)))
  }

  method SpliceSemanticTokens(cached: seq<SemanticToken>, edits: seq<SemanticTokensEdit>)
    returns (data: seq<SemanticToken>)
    ensures data == Spliced(cached, edits)
  {
    var flat := Flatten(cached);
    var sorted := SortByStart(edits);
    var i := |sorted|;
    while i > 0
      invariant 0 <= i <= |sorted|
      invariant flat == BackToFront(Flatten(cached), sorted[i..])
    {
      i := i - 1;
      assert sorted[i..][1..] == sorted[i + 1..];
      var start := Min(sorted[i].start, |flat|);
      var end := Min(start + sorted[i].deleteCount, |flat|);
      flat := flat[..start] + Flatten(sorted[i].Tokens()) + flat[end..];
    }
    assert sorted[0..] == sorted;
    data := Unflatten(flat);
  }

  // ------------------------------------------------------------ all at once

  /** Edits in order from `from`, none reaching into the next. */
  predicate DisjointFrom(es: seq<SemanticTokensEdit>, from: nat) {
    (es != [] ==> from <= es[0].start) && Disjoint(es)
  }

  predicate Disjoint(es: seq<SemanticTokensEdit>) {
    |es| <= 1 || (es[0].End() <= es[1].start && Disjoint(es[1..]))
  }

  predicate InsertsNothing(es: seq<SemanticTokensEdit>) {
    es == [] || (es[0].Tokens() == [] && InsertsNothing(es[1..]))
  }

  /** An edit may run past an array of `size` numbers only when no edit after it inserts anything. */
  predicate OverrunsHarmless(size: nat, es: seq<SemanticTokensEdit>) {
    es == [] || ((es[0].End() <= size || InsertsNothing(es[1..])) && OverrunsHarmless(size, es[1..]))
  }

  /** All edits against the original array at once: kept runs and insertions alternate. */
  function AllAtOnce(flat: seq<u32>, es: seq<SemanticTokensEdit>, from: nat): seq<u32>
    requires from <= |flat| && DisjointFrom(es, from)
    decreases |es|
  {
    if es == [] then flat[from..]
    else
      var start := Min(es[0].start, |flat|);
      var end := Min(es[0].End(), |flat|);
      flat[from..start] + Flatten(es[0].Tokens()) + AllAtOnce(flat, es[1..], end)
  }

  /** Applying edits back to front is applying them all to the original array. */
  lemma {:induction false} BackToFrontIsAllAtOnce(flat: seq<u32>, es: seq<SemanticTokensEdit>, from: nat)
    requires from <= |flat| && DisjointFrom(es, from) && OverrunsHarmless(|flat|, es)
    ensures BackToFront(flat, es) == flat[..from] + AllAtOnce(flat, es, from)
    decreases |es|
  {
    if es == [] {
      assert flat == flat[..from] + flat[from..];
    } else {
      var start, end := Min(es[0].start, |flat|), Min(es[0].End(), |flat|);
      var rest := AllAtOnce(flat, es[1..], end);
      var done := BackToFront(flat, es[1..]);
      BackToFrontIsAllAtOnce(flat, es[1..], end);
      SpliceOverPrefix(flat, rest, Flatten(es[0].Tokens()), from, start, end);
      if es[0].End() > |flat| {
        PastEndDoesNothing(flat, es[1..]);
      }
    }
  }

  /** Edits past the end that insert nothing change nothing. */
  lemma {:induction false} PastEndDoesNothing(flat: seq<u32>, es: seq<SemanticTokensEdit>)
    requires DisjointFrom(es, |flat|) && InsertsNothing(es)
    ensures BackToFront(flat, es) == flat
  {
    if es != [] {
      PastEndDoesNothing(flat, es[1..]);
      assert SpliceOne(flat, es[0]) == flat;
    }
  }

  lemma SpliceOverPrefix(flat: seq<u32>, rest: seq<u32>, inserted: seq<u32>, from: nat, start: nat, end: nat)
    requires from <= start <= end <= |flat|
    ensures var done := flat[..end] + rest;
            done[..start] + inserted + done[end..] == flat[..from] + (flat[from..start] + inserted + rest)
  {
    var done := flat[..end] + rest;
    assert done[..start] == flat[..start] == flat[..from] + flat[from..start];
    assert done[end..] == rest;
  }

  function Deleted(size: nat, es: seq<SemanticTokensEdit>): nat {
    if es == [] then 0
    else Min(es[0].End(), size) - Min(es[0].start, size) + Deleted(size, es[1..])
  }

  function Inserted(es: seq<SemanticTokensEdit>): nat {
    if es == [] then 0 else TOKEN_WIDTH * |es[0].Tokens()| + Inserted(es[1..])
  }

  lemma {:induction false} AllAtOnceLength(flat: seq<u32>, es: seq<SemanticTokensEdit>, from: nat)
    requires from <= |flat| && DisjointFrom(es, from)
    ensures |AllAtOnce(flat, es, from)| + Deleted(|flat|, es) == |flat| - from + Inserted(es)
    decreases |es|
  {
    if es != [] {
      AllAtOnceLength(flat, es[1..], Min(es[0].End(), |flat|));
    }
  }

  /** The result's length balances kept, deleted and inserted numbers. */
  lemma SpliceLengthBalances(flat: seq<u32>, es: seq<SemanticTokensEdit>)
    requires DisjointFrom(es, 0) && OverrunsHarmless(|flat|, es)
    ensures |BackToFront(flat, es)| + Deleted(|flat|, es) == |flat| + Inserted(es)
  {
    BackToFrontIsAllAtOnce(flat, es, 0);
    AllAtOnceLength(flat, es, 0);
  }

  lemma InsertPastEnd(flat: seq<u32>, e: SemanticTokensEdit)
    requires e.deleteCount == 0 && |flat| <= e.start
    ensures SpliceOne(flat, e) == flat + Flatten(e.Tokens())
  {
  }

  /** Two insertions past the end: back to front they come out in reverse. */
  lemma InsertionsReversed(flat: seq<u32>, es: seq<SemanticTokensEdit>)
    requires |es| == 2 && es[0].deleteCount == es[1].deleteCount == 0
    requires |flat| + |Flatten(es[1].Tokens())| <= es[0].start <= es[1].start
    ensures BackToFront(flat, es) == flat + Flatten(es[1].Tokens()) + Flatten(es[0].Tokens())
  {
    var rest := es[1..];
    assert rest[1..] == [] && rest[0] == es[1];
    assert BackToFront(flat, rest[1..]) == flat;
    InsertPastEnd(flat, es[1]);
    InsertPastEnd(flat + Flatten(es[1].Tokens()), es[0]);
  }

  /** All at once, an insertion past the end is appended to what is kept before it. */
  lemma AppendAtOnce(flat: seq<u32>, es: seq<SemanticTokensEdit>, from: nat)
    requires es != [] && from <= |flat| <= es[0].start && es[0].deleteCount == 0 && DisjointFrom(es, from)
    ensures AllAtOnce(flat, es, from) ==
            flat[from..] + Flatten(es[0].Tokens()) + AllAtOnce(flat, es[1..], |flat|)
  {
    assert Min(es[0].start, |flat|) == Min(es[0].End(), |flat|) == |flat|;
    assert flat[from..|flat|] == flat[from..];
  }

  lemma LastAppended(flat: seq<u32>, es: seq<SemanticTokensEdit>)
    requires |es| == 1 && |flat| <= es[0].start && es[0].deleteCount == 0 && DisjointFrom(es, |flat|)
    ensures AllAtOnce(flat, es, |flat|) == Flatten(es[0].Tokens())
  {
    AppendAtOnce(flat, es, |flat|);
    assert flat[|flat|..] == [] && AllAtOnce(flat, es[1..], |flat|) == [];
  }

  lemma InsertionsInOrder(flat: seq<u32>, es: seq<SemanticTokensEdit>)
    requires |es| == 2 && es[0].deleteCount == es[1].deleteCount == 0 && |flat| <= es[0].start <= es[1].start
    ensures DisjointFrom(es, 0)
    ensures AllAtOnce(flat, es, 0) == flat + Flatten(es[0].Tokens()) + Flatten(es[1].Tokens())
  {
    AppendAtOnce(flat, es, 0);
    LastAppended(flat, es[1..]);
    assert flat[0..] == flat;
  }

  lemma SwappedTails<T>(s: seq<T>, a: seq<T>, b: seq<T>)
    ensures s + b + a == s + a + b <==> a + b == b + a
  {
    assert s + a + b == s + (a + b) && s + b + a == s + (b + a);
    assert (s + (a + b))[|s|..] == a + b && (s + (b + a))[|s|..] == b + a;
  }

  lemma FlattenedOrderIff(a: seq<SemanticToken>, b: seq<SemanticToken>)
    ensures Flatten(a) + Flatten(b) == Flatten(b) + Flatten(a) <==> a + b == b + a
  {
    FlattenConcat(a, b);
    FlattenConcat(b, a);
    FlattenInjective(a + b, b + a);
  }

  lemma FlattenInjective(a: seq<SemanticToken>, b: seq<SemanticToken>)
    ensures Flatten(a) == Flatten(b) <==> a == b
  {
    UnflattenFlatten(a);
    UnflattenFlatten(b);
  }

  /**
   Two insertions past the end swap, whatever they insert and wherever they stand; the result is
   right exactly when their order does not matter.
   */
  lemma OverrunsSwap(flat: seq<u32>, es: seq<SemanticTokensEdit>)
    requires |es| == 2 && es[0].deleteCount == es[1].deleteCount == 0
    requires |flat| + TOKEN_WIDTH * |es[1].Tokens()| <= es[0].start <= es[1].start
    ensures DisjointFrom(es, 0)
    ensures BackToFront(flat, es) == AllAtOnce(flat, es, 0) <==>
            es[0].Tokens() + es[1].Tokens() == es[1].Tokens() + es[0].Tokens()
  {
    InsertionsReversed(flat, es);
    InsertionsInOrder(flat, es);
    SwappedTails(flat, Flatten(es[0].Tokens()), Flatten(es[1].Tokens()));
    FlattenedOrderIff(es[0].Tokens(), es[1].Tokens());
  }

  // ------------------------------------------------------------ token level

  lemma {:induction false} FlattenConcat(a: seq<SemanticToken>, b: seq<SemanticToken>)
    ensures Flatten(a + b) == Flatten(a) + Flatten(b)
  {
    if a == [] {
      assert a + b == b;
    } else {
      assert (a + b)[1..] == a[1..] + b;
      FlattenConcat(a[1..], b);
    }
  }

  lemma FlattenSplit(ts: seq<SemanticToken>, i: nat)
    requires i <= |ts|
    ensures Flatten(ts)[..TOKEN_WIDTH * i] == Flatten(ts[..i])
    ensures Flatten(ts)[TOKEN_WIDTH * i..] == Flatten(ts[i..])
  {
    assert ts == ts[..i] + ts[i..];
    FlattenConcat(ts[..i], ts[i..]);
  }

  lemma FlattenSlice(ts: seq<SemanticToken>, i: nat, j: nat)
    requires i <= j <= |ts|
    ensures Flatten(ts)[TOKEN_WIDTH * i..TOKEN_WIDTH * j] == Flatten(ts[i..j])
  {
    FlattenSplit(ts, j);
    FlattenSplit(ts[..j], i);
    assert ts[..j][i..] == ts[i..j];
    var flat := Flatten(ts);
    assert flat[TOKEN_WIDTH * i..TOKEN_WIDTH * j] == flat[..TOKEN_WIDTH * j][TOKEN_WIDTH * i..];
  }

  /** The wire's order: token `i` takes numbers 5i to 5i + 4, line, start, length, type and modifiers. */
  lemma {:induction false} FlatOrder(ts: seq<SemanticToken>, i: nat)
    requires i < |ts|
    ensures var flat, n := Flatten(ts), TOKEN_WIDTH * i;
            && flat[n] == ts[i].deltaLine && flat[n + 1] == ts[i].deltaStart && flat[n + 2] == ts[i].length
            && flat[n + 3] == ts[i].tokenType && flat[n + 4] == ts[i].modifiers
  {
    if i > 0 {
      FlatOrder(ts[1..], i - 1);
      assert Flatten(ts) == Numbers(ts[0]) + Flatten(ts[1..]);
    }
  }

  /** Regrouping a flattened stream loses nothing. */
  lemma {:induction false} UnflattenFlatten(ts: seq<SemanticToken>)
    ensures Unflatten(Flatten(ts)) == ts
  {
    if ts != [] {
      assert Flatten(ts)[TOKEN_WIDTH..] == Flatten(ts[1..]);
      UnflattenFlatten(ts[1..]);
    }
  }

  /** Starts and counts are multiples of five. */
  predicate Aligned(es: seq<SemanticTokensEdit>) {
    forall e :: e in es ==> e.start % TOKEN_WIDTH == 0 && e.deleteCount % TOKEN_WIDTH == 0
  }

  /** The tokens wholly before an edit: a start inside a token counts the tokens before that one. */
  function Anchor(e: SemanticTokensEdit, size: nat): (i: nat)
    ensures i <= size && TOKEN_WIDTH * i <= e.start
    ensures i < size ==> e.start < TOKEN_WIDTH * (i + 1)
  {
    Min(e.start / TOKEN_WIDTH, size)
  }

  /** The tokens wholly before the end of an edit's deleted run. */
  function AnchorEnd(e: SemanticTokensEdit, size: nat): (i: nat)
    ensures i <= size && TOKEN_WIDTH * i <= e.End()
    ensures i < size ==> e.End() < TOKEN_WIDTH * (i + 1)
  {
    Min(e.End() / TOKEN_WIDTH, size)
  }

  /** All edits against the original token stream at once. */
  function TokensAtOnce(ts: seq<SemanticToken>, es: seq<SemanticTokensEdit>, from: nat): seq<SemanticToken>
    requires from <= |ts| && DisjointFrom(es, TOKEN_WIDTH * from)
    decreases |es|
  {
    if es == [] then ts[from..]
    else
      ts[from..Anchor(es[0], |ts|)] + es[0].Tokens() + TokensAtOnce(ts, es[1..], AnchorEnd(es[0], |ts|))
  }

  lemma {:induction false} AllAtOnceIsTokenwise(ts: seq<SemanticToken>, es: seq<SemanticTokensEdit>, from: nat)
    requires from <= |ts| && DisjointFrom(es, TOKEN_WIDTH * from) && Aligned(es)
    ensures AllAtOnce(Flatten(ts), es, TOKEN_WIDTH * from) == Flatten(TokensAtOnce(ts, es, from))
    decreases |es|
  {
    if es == [] {
      FlattenSlice(ts, from, |ts|);
      assert Flatten(ts)[TOKEN_WIDTH * from..] == Flatten(ts)[TOKEN_WIDTH * from..TOKEN_WIDTH * |ts|];
      assert ts[from..] == ts[from..|ts|];
    } else {
      var e := es[0];
      assert e in es;
      var i, j := Anchor(e, |ts|), AnchorEnd(e, |ts|);
      assert Min(e.start, |Flatten(ts)|) == TOKEN_WIDTH * i;
      assert Min(e.End(), |Flatten(ts)|) == TOKEN_WIDTH * j;
      FlattenSlice(ts, from, i);
      AllAtOnceIsTokenwise(ts, es[1..], j);
      FlattenConcat(ts[from..i], e.Tokens());
      FlattenConcat(ts[from..i] + e.Tokens(), TokensAtOnce(ts, es[1..], j));
    }
  }

  /** For token-aligned disjoint edits the flat splice is the token-level splice. */
  lemma SpliceIsTokenwise(cached: seq<SemanticToken>, edits: seq<SemanticTokensEdit>)
    requires DisjointFrom(SortByStart(edits), 0) && Aligned(SortByStart(edits))
    requires OverrunsHarmless(TOKEN_WIDTH * |cached|, SortByStart(edits))
    ensures Spliced(cached, edits) == TokensAtOnce(cached, SortByStart(edits), 0)
  {
    SplicedIsTokenwise(cached, SortByStart(edits));
  }

  lemma SplicedIsTokenwise(ts: seq<SemanticToken>, es: seq<SemanticTokensEdit>)
    requires DisjointFrom(es, 0) && Aligned(es) && OverrunsHarmless(TOKEN_WIDTH * |ts|, es)
    ensures Unflatten(BackToFront(Flatten(ts), es)) == TokensAtOnce(ts, es, 0)
  {
    var flat := Flatten(ts);
    BackToFrontIsAllAtOnce(flat, es, 0);
    assert flat[..0] + AllAtOnce(flat, es, 0) == AllAtOnce(flat, es, 0);
    AllAtOnceIsTokenwise(ts, es, 0);
    UnflattenFlatten(TokensAtOnce(ts, es, 0));
  }
}
