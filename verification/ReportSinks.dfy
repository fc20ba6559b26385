/**
 Accumulating workspace reports: an ordered list with a URI index, whose pushes
 replace or append, and the fold of per-item sinks into one.
 */
module ReportSinks {
  import opened Wrappers

  type Uri = string

  /** A workspace report, of which the sink only reads the URI. */
  datatype Report = Report(uri: Uri, version: Option<int>, items: seq<string>)

  /** A report with the `replace` flag it was pushed with. */
  datatype Push = Push(report: Report, replace: bool)
  {
    function Uri(): Uri { report.uri }
  }

  // ------------------------------------------------------------ the list a sink holds

  /** Position of a URI's report. */
  function Position(reports: seq<Push>, uri: Uri): (r: Option<nat>)
    ensures r.Some? ==> r.value < |reports| && reports[r.value].Uri() == uri
    ensures r.None? ==> forall i :: 0 <= i < |reports| ==> reports[i].Uri() != uri
  {
    if reports == [] then None
    else if reports[0].Uri() == uri then Some(0)
    else
      match Position(reports[1..], uri)
      case None => None
      case Some(i) => Some(i + 1)
  }

  predicate Has(reports: seq<Push>, uri: Uri) { Position(reports, uri).Some? }

  function PushOne(reports: seq<Push>, p: Push): seq<Push> {
    match Position(reports, p.Uri())
    case None => reports + [p]
    case Some(i) => if p.replace then reports[i := p] else reports
  }

  /** A push sequence folded into a list. */
  function PushAll(reports: seq<Push>, ps: seq<Push>): seq<Push> {
    if ps == [] then reports else PushOne(PushAll(reports, ps[..|ps| - 1]), ps[|ps| - 1])
  }

  predicate Distinct(reports: seq<Push>) {
    forall i, j :: 0 <= i < j < |reports| ==> reports[i].Uri() != reports[j].Uri()
  }

  // ------------------------------------------------------------ the sink

  class WorkspaceReportSink {
    var reports: seq<Push>
    var index: map<Uri, nat>

    /** The index maps exactly the URIs of the reports to their positions. */
    ghost predicate Valid() reads this {
      && (forall u :: u in index ==> index[u] < |reports| && reports[index[u]].Uri() == u)
      && (forall i :: 0 <= i < |reports| ==> reports[i].Uri() in index && index[reports[i].Uri()] == i)
    }

    constructor ()
      ensures Valid() && reports == []
    {
      reports, index := [], map[];
    }

    method PushReport(p: Push)
      requires Valid()
      modifies this
      ensures Valid() && reports == PushOne(old(reports), p)
    {
      if p.Uri() in index {
        if p.replace {
          reports := reports[index[p.Uri()] := p];
        }
      } else {
        index := index[p.Uri() := |reports|];
        reports := reports + [p];
      }
    }

    /** Pushes another sink's reports, each with its own flag. */
    method Absorb(ps: seq<Push>)
      requires Valid()
      modifies this
      ensures Valid() && reports == PushAll(old(reports), ps)
    {
      for i := 0 to |ps|
        invariant Valid() && reports == PushAll(old(reports), ps[..i])
      {
        assert ps[..i + 1][..i] == ps[..i];
        PushReport(ps[i]);
      }
      assert ps[..|ps|] == ps;
    }
  }

  /** Per-item push sequences in input order, as one. */
  function Flat(items: seq<seq<Push>>): seq<Push> {
    if items == [] then [] else Flat(items[..|items| - 1]) + items[|items| - 1]
  }

  /** Each item's pushes go into a sink of their own; the sinks fold into one in input order. */
  method MergeItems(items: seq<seq<Push>>) returns (sink: WorkspaceReportSink)
    ensures fresh(sink) && sink.Valid() && sink.reports == PushAll([], Flat(items))
  {
    sink := new WorkspaceReportSink();
    for i := 0 to |items|
      invariant fresh(sink) && sink.Valid() && sink.reports == PushAll([], Flat(items[..i]))
    {
      var itemSink := new WorkspaceReportSink();
      itemSink.Absorb(items[i]);
      sink.Absorb(itemSink.reports);
      assert items[..i + 1][..i] == items[..i];
      MergeIsHomomorphic(Flat(items[..i]), items[i]);
    }
    assert items[..|items|] == items;
  }

  // ------------------------------------------------------------ the homomorphism

  lemma {:induction false} PushAllConcat(s: seq<Push>, a: seq<Push>, b: seq<Push>)
    ensures PushAll(s, a + b) == PushAll(PushAll(s, a), b)
  {
    if b == [] {
      assert a + b == a;
    } else {
      assert (a + b)[..|a + b| - 1] == a + b[..|b| - 1];
      PushAllConcat(s, a, b[..|b| - 1]);
    }
  }

  lemma PositionUnique(s: seq<Push>, i: nat)
    requires Distinct(s) && i < |s|
    ensures Position(s, s[i].Uri()) == Some(i)
  {
  }

  lemma PushOneDistinct(s: seq<Push>, p: Push)
    requires Distinct(s)
    ensures Distinct(PushOne(s, p))
    ensures forall u :: Has(PushOne(s, p), u) <==> Has(s, u) || u == p.Uri()
  {
    var t := PushOne(s, p);
    forall u ensures Has(t, u) <==> Has(s, u) || u == p.Uri() {
      if Has(s, u) {
        var i := Position(s, u).value;
        assert t[i].Uri() == u;
      }
      if u == p.Uri() {
        assert exists i :: 0 <= i < |t| && t[i].Uri() == u by {
          match Position(s, u)
          case None => assert t[|s|].Uri() == u;
          case Some(i) => assert t[i].Uri() == u;
        }
      }
    }
  }

  lemma {:induction false} PushAllDistinct(s: seq<Push>, ps: seq<Push>)
    requires Distinct(s)
    ensures Distinct(PushAll(s, ps))
    ensures forall u :: Has(s, u) ==> Has(PushAll(s, ps), u)
    ensures forall i :: 0 <= i < |ps| ==> Has(PushAll(s, ps), ps[i].Uri())
  {
    if ps != [] {
      PushAllDistinct(s, ps[..|ps| - 1]);
      PushOneDistinct(PushAll(s, ps[..|ps| - 1]), ps[|ps| - 1]);
      assert forall i :: 0 <= i < |ps| - 1 ==> ps[i] == ps[..|ps| - 1][i];
    }
  }

  /** A replacing push of a present URI commutes with any push of another URI. */
  lemma ReplaceCommutes(s: seq<Push>, p: Push, q: Push)
    requires Distinct(s) && p.replace && Has(s, p.Uri()) && p.Uri() != q.Uri()
    ensures PushOne(PushOne(s, q), p) == PushOne(PushOne(s, p), q)
  {
    var i := Position(s, p.Uri()).value;
    PushOneDistinct(s, p);
    PushOneDistinct(s, q);
    assert PushOne(s, q)[i].Uri() == p.Uri();
    PositionUnique(PushOne(s, q), i);
    if Has(s, q.Uri()) {
      var j := Position(s, q.Uri()).value;
      assert PushOne(s, p)[j].Uri() == q.Uri();
      PositionUnique(PushOne(s, p), j);
    } else {
      assert !Has(PushOne(s, p), q.Uri());
    }
  }

  lemma {:induction false} ReplaceCommutesAll(s: seq<Push>, p: Push, qs: seq<Push>)
    requires Distinct(s) && p.replace && Has(s, p.Uri())
    requires forall i :: 0 <= i < |qs| ==> qs[i].Uri() != p.Uri()
    ensures PushOne(PushAll(s, qs), p) == PushAll(PushOne(s, p), qs)
  {
    if qs != [] {
      var init := qs[..|qs| - 1];
      ReplaceCommutesAll(s, p, init);
      PushAllDistinct(s, init);
      ReplaceCommutes(PushAll(s, init), p, qs[|qs| - 1]);
    }
  }

  /** A replacing push overwrites what the push before it left at its URI. */
  lemma ReplaceOverwrites(s: seq<Push>, q: Push, p: Push)
    requires Distinct(s) && p.replace && p.Uri() == q.Uri()
    ensures PushOne(PushOne(s, q), p) == PushOne(s, p)
  {
    PushOneDistinct(s, q);
    var t := PushOne(s, q);
    match Position(s, p.Uri())
    case None => PositionUnique(t, |s|);
    case Some(i) =>
      assert t[i].Uri() == p.Uri();
      PositionUnique(t, i);
  }

  /**
   Merging is a homomorphism: pushing an item's own sink, flags kept, replays
   pushing the item's reports one by one after everything before it.
   */
  lemma MergeIsHomomorphic(earlier: seq<Push>, item: seq<Push>)
    ensures PushAll(PushAll([], earlier), PushAll([], item)) == PushAll([], earlier + item)
  {
    PushAllConcat([], earlier, item);
    PushAllDistinct([], earlier);
    PushedSinkReplays(PushAll([], earlier), item);
  }

  lemma {:induction false} PushedSinkReplays(s: seq<Push>, item: seq<Push>)
    requires Distinct(s)
    ensures PushAll(s, PushAll([], item)) == PushAll(s, item)
  {
    if item != [] {
      var init, p := item[..|item| - 1], item[|item| - 1];
      var t := PushAll([], init);
      PushedSinkReplays(s, init);
      PushAllDistinct([], init);
      PushAllDistinct(s, t);
      match Position(t, p.Uri())
      case None =>
        assert (t + [p])[..|t|] == t;
      case Some(i) =>
        if p.replace {
          ReplacedInside(s, t, p, i);
        } else {
          assert Has(PushAll(s, t), p.Uri());
        }
    }
  }

  /** Replacing inside a distinct list, then pushing it, is pushing it and then replacing. */
  lemma ReplacedInside(s: seq<Push>, t: seq<Push>, p: Push, i: nat)
    requires Distinct(s) && Distinct(t) && p.replace && i < |t| && t[i].Uri() == p.Uri()
    ensures PushAll(s, t[i := p]) == PushOne(PushAll(s, t), p)
  {
    var a, b := t[..i], t[i + 1..];
    var sa := PushAll(s, a);
    assert t == a + [t[i]] + b && t[i := p] == a + [p] + b;
    PushAllConcat(s, a + [t[i]], b);
    PushAllConcat(s, a + [p], b);
    PushAllConcat(s, a, [t[i]]);
    PushAllConcat(s, a, [p]);
    assert PushAll(sa, [t[i]]) == PushOne(sa, t[i]) && PushAll(sa, [p]) == PushOne(sa, p);
    PushAllDistinct(s, a);
    PushOneDistinct(sa, t[i]);
    ReplaceCommutesAll(PushOne(sa, t[i]), p, b);
    ReplaceOverwrites(sa, t[i], p);
  }

  // ------------------------------------------------------------ what each URI ends with

  /** A URI's last replacing push, else its first push. */
  function Winner(ps: seq<Push>, uri: Uri): Option<Push> {
    if ps == [] then None
    else
      var before, p := Winner(ps[..|ps| - 1], uri), ps[|ps| - 1];
      if p.Uri() == uri && (p.replace || before.None?) then Some(p) else before
  }

  /** The report list holds, for each pushed URI and no other, that URI's winner. */
  lemma {:induction false} EachUriKeepsItsWinner(ps: seq<Push>, uri: Uri)
    ensures var s := PushAll([], ps);
            Winner(ps, uri) == match Position(s, uri) case None => None case Some(i) => Some(s[i])
  {
    if ps != [] {
      var init, p := ps[..|ps| - 1], ps[|ps| - 1];
      var s := PushAll([], init);
      EachUriKeepsItsWinner(init, uri);
      PushAllDistinct([], init);
      PushOneDistinct(s, p);
      var t := PushOne(s, p);
      if Has(t, uri) {
        PositionUnique(t, Position(t, uri).value);
      }
      if Has(s, uri) {
        assert t[Position(s, uri).value].Uri() == uri;
        PositionUnique(t, Position(s, uri).value);
      } else if p.Uri() == uri {
        PositionUnique(t, |s|);
      }
    }
  }

  /** The winner is the last replacing push of its URI when there is one, else the first push. */
  lemma {:induction false} WinnerMeaning(ps: seq<Push>, uri: Uri)
    ensures Winner(ps, uri).None? <==> forall i :: 0 <= i < |ps| ==> ps[i].Uri() != uri
    ensures Winner(ps, uri).Some? ==> exists i :: 0 <= i < |ps| && WinsAt(ps, uri, i)
  {
    if ps != [] {
      var init, p := ps[..|ps| - 1], ps[|ps| - 1];
      WinnerMeaning(init, uri);
      if p.Uri() == uri && (p.replace || Winner(init, uri).None?) {
        assert forall i :: 0 <= i < |init| ==> init[i] == ps[i];
        assert WinsAt(ps, uri, |ps| - 1);
      } else if Winner(init, uri).Some? {
        var i :| 0 <= i < |init| && WinsAt(init, uri, i);
        assert forall j :: 0 <= j < |init| ==> init[j] == ps[j];
        assert WinsAt(ps, uri, i);
      }
    }
  }

  predicate WinsAt(ps: seq<Push>, uri: Uri, i: nat)
    requires i < |ps|
  {
    && Winner(ps, uri) == Some(ps[i]) && ps[i].Uri() == uri
    && (forall j :: i < j < |ps| && ps[j].Uri() == uri ==> !ps[j].replace)
    && (!ps[i].replace ==> forall j :: 0 <= j < i ==> ps[j].Uri() != uri)
  }

  /** The pushed URIs in the order they were first pushed. */
  function FirstSeen(ps: seq<Push>): seq<Uri> {
    if ps == [] then []
    else
      var before, uri := FirstSeen(ps[..|ps| - 1]), ps[|ps| - 1].Uri();
      if uri in before then before else before + [uri]
  }

  /** Reports stay in the order their URIs were first pushed, whatever replaced them. */
  lemma {:induction false} OrderIsFirstSeen(ps: seq<Push>)
    ensures |PushAll([], ps)| == |FirstSeen(ps)|
    ensures forall i :: 0 <= i < |FirstSeen(ps)| ==> PushAll([], ps)[i].Uri() == FirstSeen(ps)[i]
  {
    if ps != [] {
      OrderIsFirstSeen(ps[..|ps| - 1]);
      var s, p := PushAll([], ps[..|ps| - 1]), ps[|ps| - 1];
      if Has(s, p.Uri()) {
        assert p.Uri() == FirstSeen(ps[..|ps| - 1])[Position(s, p.Uri()).value];
      }
    }
  }
}
