/**
 When a run of tokens may follow another position, or stand over another text, than it was converted
 for. A delta's runs are converted after the cached prefix, but end up after the spliced one; what is
 kept of the client's stream was converted over the text of its time.
 */
module TokenMoves {
  import opened MachineInts
  import opened TextEncoding
  import opened TextLines
  import opened Positions
  import opened TokenStreams

  /** After `p` one conversion gives a run of tokens the deltas that the other gives it after `q`. */
  predicate MovesAlike(held: Conversion, p: LspPosition, conv: Conversion, q: LspPosition, run: seq<SemanticToken>) {
    Walk(held, p, held(p), run) == Walk(conv, q, conv(q), run)
  }

  lemma MovesAlikeStep(held: Conversion, p: LspPosition, conv: Conversion, q: LspPosition, run: seq<SemanticToken>)
    requires run != []
    ensures MovesAlike(held, p, conv, q, run) <==>
            && ConvertToken(held, p, held(p), run[0]) == ConvertToken(conv, q, conv(q), run[0])
            && MovesAlike(held, TokenStart(p, run[0]), conv, TokenStart(q, run[0]), run[1..])
  {
    var s, u := TokenStart(p, run[0]), TokenStart(q, run[0]);
    HeadAndTail(ConvertToken(held, p, held(p), run[0]), Walk(held, s, held(s), run[1..]),
                ConvertToken(conv, q, conv(q), run[0]), Walk(conv, u, conv(u), run[1..]));
  }

  lemma HeadAndTail<T>(x: T, xs: seq<T>, y: T, ys: seq<T>)
    ensures [x] + xs == [y] + ys <==> x == y && xs == ys
  {
    assert ([x] + xs)[0] == x && ([x] + xs)[1..] == xs;
    assert ([y] + ys)[0] == y && ([y] + ys)[1..] == ys;
  }

  // ------------------------------------------------------------ read off the text

  /** The character of its clamped line that a UTF-8 position denotes. */
  function CharAt(text: string, p: LspPosition): (k: nat)
    ensures k <= |LineOf(text, FromLsp(p))|
  {
    CharColumn(LineOf(text, FromLsp(p)), UTF8, p.character)
  }

  predicate OneLine(text: string, p: LspPosition, q: LspPosition) {
    ClampLine(text, p.line) == ClampLine(text, q.line)
  }

  /** The text between two positions of one line, else the text before the second on its line. */
  function Passed(text: string, p: LspPosition, q: LspPosition): string {
    var line, to := LineOf(text, FromLsp(q)), CharAt(text, q);
    if !OneLine(text, p, q) then line[..to]
    else if CharAt(text, p) <= to then line[CharAt(text, p)..to]
    else ""
  }

  /** The columns the wire can count beyond `p`, or on a fresh line. */
  function Room(text: string, client: Encoding, p: LspPosition, q: LspPosition): nat {
    if OneLine(text, p, q) then U32_MAX - Saturate(LenUnits(LineOf(text, FromLsp(p))[..CharAt(text, p)], client))
    else U32_MAX
  }

  /** The client length of the text passed, as far as the wire can count it. */
  function PassedLength(text: string, client: Encoding, p: LspPosition, q: LspPosition): nat {
    Min(LenUnits(Passed(text, p, q), client), Room(text, client, p, q))
  }

  /** After `p` in one text and `q` in another a token goes down as many lines, and passes and covers as much. */
  predicate TokenMovesAlike(before: string, p: LspPosition, text: string, q: LspPosition, client: Encoding,
                            t: SemanticToken) {
    var s, u := TokenStart(p, t), TokenStart(q, t);
    && ClampLine(before, s.line) - ClampLine(before, p.line) == ClampLine(text, u.line) - ClampLine(text, q.line)
    && PassedLength(before, client, p, s) == PassedLength(text, client, q, u)
    && PassedLength(before, client, s, TokenEnd(s, t)) == PassedLength(text, client, u, TokenEnd(u, t))
  }

  /** The same for each token of a run, until both places have come to one. */
  predicate RunMovesAlike(before: string, p: LspPosition, text: string, q: LspPosition, client: Encoding,
                          run: seq<SemanticToken>)
    decreases run
  {
    run == [] || (before == text && p == q) ||
    (&& TokenMovesAlike(before, p, text, q, client, run[0])
     && RunMovesAlike(before, TokenStart(p, run[0]), text, TokenStart(q, run[0]), client, run[1..]))
  }

  lemma SliceUnits(s: string, e: Encoding, i: nat, j: nat)
    requires i <= j <= |s|
    ensures LenUnits(s[i..j], e) == CharToUnit(s, e, j) - CharToUnit(s, e, i)
  {
    assert s[..j] == s[..i] + s[i..j];
    CharToUnitConcat(s[..i], s[i..j], e, j - i);
    CharToUnitPrefix(s[..j], s, e, j);
    CharToUnitPrefix(s[..i], s, e, i);
  }

  lemma PrefixUnits(s: string, e: Encoding, k: nat)
    requires k <= |s|
    ensures LenUnits(s[..k], e) == CharToUnit(s, e, k)
  {
    CharToUnitPrefix(s[..k], s, e, k);
  }

  /** The converted column of `q` relative to `p` counts the client units of the text passed. */
  lemma PassedUnits(text: string, client: Encoding, p: LspPosition, q: LspPosition)
    requires client != UTF8
    ensures var cp, cq := LspToEncoding(text, p, UTF8, client), LspToEncoding(text, q, UTF8, client);
            && cp.line == ClampLine(text, p.line) && cq.line == ClampLine(text, q.line)
            && PassedLength(text, client, p, q) ==
               if cp.line == cq.line then SaturatingSub(cq.character, cp.character) else cq.character
  {
    var line, i, j := LineOf(text, FromLsp(q)), CharAt(text, p), CharAt(text, q);
    LspColumn(text, p, UTF8, client);
    LspColumn(text, q, UTF8, client);
    PrefixUnits(LineOf(text, FromLsp(p)), client, i);
    PrefixUnits(line, client, j);
    if OneLine(text, p, q) {
      if i <= j {
        SliceUnits(line, client, i, j);
      } else {
        CharToUnitMonotone(line, client, j, i);
      }
    }
  }

  /** A converted token, by the lines it goes down and the text it passes and covers. */
  lemma TokenByPassed(text: string, client: Encoding, p: LspPosition, t: SemanticToken)
    requires client != UTF8
    ensures var conv, s := Converter(text, UTF8, client), TokenStart(p, t);
            var out := ConvertToken(conv, p, conv(p), t);
            && out.deltaLine == ClampLine(text, s.line) - ClampLine(text, p.line)
            && out.deltaStart == PassedLength(text, client, p, s)
            && out.length == PassedLength(text, client, s, TokenEnd(s, t))
            && out.tokenType == t.tokenType && out.modifiers == t.modifiers
  {
    var s := TokenStart(p, t);
    PassedUnits(text, client, p, s);
    PassedUnits(text, client, s, TokenEnd(s, t));
  }

  lemma TokenMovesAlikeIff(before: string, p: LspPosition, text: string, q: LspPosition, client: Encoding,
                           t: SemanticToken)
    requires client != UTF8
    ensures var held, conv := Converter(before, UTF8, client), Converter(text, UTF8, client);
            TokenMovesAlike(before, p, text, q, client, t) <==>
            ConvertToken(held, p, held(p), t) == ConvertToken(conv, q, conv(q), t)
  {
    TokenByPassed(before, client, p, t);
    TokenByPassed(text, client, q, t);
  }

  /**
   A run moves alike exactly when its tokens, until both places meet, go down as many lines and pass
   and cover text of the same client length at both.
   */
  lemma {:induction false} RunMovesAlikeIff(before: string, p: LspPosition, text: string, q: LspPosition,
                                            client: Encoding, run: seq<SemanticToken>)
    requires client != UTF8
    ensures MovesAlike(Converter(before, UTF8, client), p, Converter(text, UTF8, client), q, run) <==>
            RunMovesAlike(before, p, text, q, client, run)
    decreases run
  {
    if run != [] && !(before == text && p == q) {
      MovesAlikeStep(Converter(before, UTF8, client), p, Converter(text, UTF8, client), q, run);
      TokenMovesAlikeIff(before, p, text, q, client, run[0]);
      RunMovesAlikeIff(before, TokenStart(p, run[0]), text, TokenStart(q, run[0]), client, run[1..]);
    }
  }

  // ------------------------------------------------------------ without looking at the text

  /**
   The run stands where it stood, is empty, or begins on a later line of the document than the
   one line both places are on.
   */
  predicate Settles(text: string, p: LspPosition, q: LspPosition, run: seq<SemanticToken>) {
    || run == []
    || p == q
    || (p.line == q.line && run[0].deltaLine > 0 && p.line < Min(TokenStart(p, run[0]).line, LineCount(text) - 1))
  }

  /** Over one text, a settled run moves alike in every encoding. */
  lemma SettledMovesAlike(text: string, client: Encoding, p: LspPosition, q: LspPosition, run: seq<SemanticToken>)
    requires Settles(text, p, q, run) && client != UTF8
    ensures MovesAlike(Converter(text, UTF8, client), p, Converter(text, UTF8, client), q, run)
  {
    if run != [] && p != q {
      ConvertedLine(text, p, UTF8, client);
      ConvertedLine(text, q, UTF8, client);
      ConvertedLine(text, TokenStart(p, run[0]), UTF8, client);
      MovesAlikeStep(Converter(text, UTF8, client), p, Converter(text, UTF8, client), q, run);
    }
  }
}
