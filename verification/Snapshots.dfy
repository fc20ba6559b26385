/**
 Document generations as they are kept: a `didChange` batch edits a copy of the rope in place and
 installs it as a fresh generation, so every snapshot handed out before stays what it was.
 */
module Snapshots {
  import opened Wrappers
  import opened TextEncoding
  import Sync = DocumentSync

  /** A rope, edited in place. */
  class Rope {
    var content: string

    constructor (content: string)
      ensures this.content == content
    {
      this.content := content;
    }

    method Clone() returns (copy: Rope)
      ensures fresh(copy) && copy.content == content
    {
      copy := new Rope(content);
    }

    /** Fails on a reversed or overlong range and then changes nothing. */
    method TryRemove(start: nat, end: nat) returns (ok: bool)
      modifies this
      ensures ok == (start <= end <= |old(content)|)
      ensures content == if ok then old(content)[..start] + old(content)[end..] else old(content)
    {
      ok := start <= end <= |content|;
      if ok {
        content := content[..start] + content[end..];
      }
    }

    method TryInsert(at: nat, text: string) returns (ok: bool)
      modifies this
      ensures ok == (at <= |old(content)|)
      ensures content == if ok then old(content)[..at] + text + old(content)[at..] else old(content)
    {
      ok := at <= |content|;
      if ok {
        content := content[..at] + text + content[at..];
      }
    }
  }

  /** One generation of a document. */
  class Generation {
    const text: Rope
    const version: int

    constructor (text: Rope, version: int)
      ensures this.text == text && this.version == version
    {
      this.text, this.version := text, version;
    }
  }

  /** Applies one change to a working rope. */
  method EditRope(rope: Rope, change: Sync.ContentChange, e: Encoding) returns (ok: bool)
    modifies rope
    ensures var applied := Sync.ApplyChange(old(rope.content), change, e);
            && ok == applied.Some?
            && (ok ==> rope.content == applied.value)
            && (!ok ==> rope.content == old(rope.content))
  {
    if change.range.None? {
      rope.content := change.text;
      return true;
    }
    var range := Sync.ChangeCharRange(rope.content, change.range.value, e);
    if range.None? {
      return false;
    }
    ghost var was := rope.content;
    var (start, end) := range.value;
    ok := rope.TryRemove(start, end);
    if ok {
      assert rope.content[..start] == was[..start] && rope.content[start..] == was[end..];
      ok := rope.TryInsert(start, change.text);
    }
  }

  class Entry {
    var current: Generation

    constructor (text: string, version: int)
      ensures fresh(current) && fresh(current.text) && current.text.content == text && current.version == version
    {
      var rope := new Rope(text);
      current := new Generation(rope, version);
    }

    /** A reader's handle on the generation of now. */
    method Snapshot() returns (snapshot: Generation)
      ensures snapshot == current
    {
      snapshot := current;
    }

    /**
     Installs the fold of a batch as a fresh generation, also when a change fails. No rope that
     existed before is touched: not the previous generation's, nor any earlier one's.
     */
    method Change(version: int, changes: seq<Sync.ContentChange>, e: Encoding) returns (failed: bool)
      modifies this
      ensures fresh(current) && fresh(current.text) && current.version == version
      ensures (current.text.content, failed) == Sync.FoldChanges(old(current.text.content), changes, e)
      ensures forall r: Rope :: old(allocated(r)) ==> r.content == old(r.content)
    {
      var base := current;
      var text := base.text.Clone();
      ghost var before := text.content;
      failed := false;
      var i := 0;
      while i < |changes| && !failed
        invariant i <= |changes| && fresh(text)
        invariant failed ==> Sync.FoldChanges(before, changes, e) == (text.content, true)
        invariant !failed ==> Sync.FoldChanges(text.content, changes[i..], e) == Sync.FoldChanges(before, changes, e)
        modifies text
        decreases |changes| - i
      {
        assert changes[i..][1..] == changes[i + 1..];
        var ok := EditRope(text, changes[i], e);
        failed := !ok;
        i := i + 1;
      }
      current := new Generation(text, version);
    }
  }

  /** A version and the changes that lead to it. */
  type Batch = (int, seq<Sync.ContentChange>)

  /** The text after some batches, a failing one leaving the fold before its first failing change. */
  function TextAfter(text: string, batches: seq<Batch>, e: Encoding): string {
    if batches == [] then text
    else Sync.FoldChanges(TextAfter(text, batches[..|batches| - 1], e), batches[|batches| - 1].1, e).0
  }

  lemma TextAfterStep(text: string, batches: seq<Batch>, i: nat, e: Encoding)
    requires i < |batches|
    ensures TextAfter(text, batches[..i + 1], e) ==
            Sync.FoldChanges(TextAfter(text, batches[..i], e), batches[i].1, e).0
  {
    assert batches[..i + 1][..i] == batches[..i];
  }

  /** Each snapshot holds its text. */
  ghost predicate Hold(snapshots: seq<Generation>, texts: seq<string>)
    reads set g: Generation | g in snapshots :: g.text
  {
    && |snapshots| == |texts|
    && forall k :: 0 <= k < |snapshots| ==> snapshots[k].text.content == texts[k]
  }

  /** No two snapshots share a rope. */
  predicate Apart(snapshots: seq<Generation>) {
    forall j, k :: 0 <= j < k < |snapshots| ==> snapshots[j].text != snapshots[k].text
  }

  /** Takes a snapshot and handles a batch: the snapshots and their texts stay, one more is apart from what follows. */
  method SnapshotAndChange(entry: Entry, snapshots: seq<Generation>, ghost texts: seq<string>,
                           version: int, changes: seq<Sync.ContentChange>, e: Encoding)
    returns (more: seq<Generation>)
    requires Hold(snapshots, texts) && Apart(snapshots + [entry.current])
    modifies entry
    ensures more == snapshots + [old(entry.current)]
    ensures Hold(more, texts + [old(entry.current.text.content)]) && Apart(more + [entry.current])
    ensures entry.current.version == version
    ensures entry.current.text.content == Sync.FoldChanges(old(entry.current.text.content), changes, e).0
  {
    var snapshot := entry.Snapshot();
    more := snapshots + [snapshot];
    assert forall k :: 0 <= k < |more| ==> allocated(more[k].text);
    var _ := entry.Change(version, changes, e);
  }

  /** The texts before each batch. */
  function TextsBefore(text: string, batches: seq<Batch>, e: Encoding): (r: seq<string>)
    ensures |r| == |batches|
  {
    seq(|batches|, k requires 0 <= k < |batches| => TextAfter(text, batches[..k], e))
  }

  lemma TextsBeforeStep(text: string, batches: seq<Batch>, i: nat, e: Encoding)
    requires i < |batches|
    ensures TextsBefore(text, batches[..i + 1], e) ==
            TextsBefore(text, batches[..i], e) + [TextAfter(text, batches[..i], e)]
  {
    forall k | 0 <= k <= i ensures batches[..i + 1][..k] == batches[..k] {
    }
    forall k | 0 <= k < i ensures batches[..i][..k] == batches[..k] {
    }
  }

  /**
   A snapshot taken before each batch still holds, after all of them, the text of its time, and no
   two snapshots share a rope.
   */
  method ChangeAll(entry: Entry, batches: seq<Batch>, e: Encoding) returns (snapshots: seq<Generation>)
    modifies entry
    ensures Hold(snapshots, TextsBefore(old(entry.current.text.content), batches, e)) && Apart(snapshots)
    ensures entry.current.text.content == TextAfter(old(entry.current.text.content), batches, e)
    ensures batches != [] ==> entry.current.version == batches[|batches| - 1].0
  {
    ghost var text := entry.current.text.content;
    snapshots := [];
    for i := 0 to |batches|
      invariant Hold(snapshots, TextsBefore(text, batches[..i], e)) && Apart(snapshots + [entry.current])
      invariant entry.current.text.content == TextAfter(text, batches[..i], e)
      invariant 0 < i ==> entry.current.version == batches[i - 1].0
    {
      TextAfterStep(text, batches, i, e);
      TextsBeforeStep(text, batches, i, e);
      snapshots := SnapshotAndChange(entry, snapshots, TextsBefore(text, batches[..i], e),
                                     batches[i].0, batches[i].1, e);
    }
    assert batches[..|batches|] == batches;
    assert forall k :: 0 <= k < |snapshots| ==> snapshots[k] == (snapshots + [entry.current])[k];
  }
}
