/**
 * One layer's `layer.tar` extracted onto the output tree: its entries are
 * written in order, each one replacing whatever the tree held at its path,
 * until the first entry whose extraction raises an OS error.
 */
module LayerFiles {
  import opened Basics

  type Path = string
  type Content = seq<bv8>

  /** The output directory: file contents by relative path. */
  type Tree = map<Path, Content>

  /** One member of a layer's `layer.tar`. */
  datatype Entry =
    | Member(path: Path, content: Content)  // extracted by writing `content` at `path`
    | Unextractable(path: Path)             // extracting it raises an OSError (a link, a node, a directory)
    | Unwritable(path: Path)                // opening the file for writing raises an IOError

  /**
   * The exception that ends `extractall`. Under Python 2 an IOError is not
   * an OSError, so the two are told apart.
   */
  datatype Raised = OSError(path: Path) | IOError(path: Path)

  /** A single file write: the path and the content it leaves there. */
  type Write = (Path, Content)

  function Get(tree: Tree, p: Path): Option<Content> {
    if p in tree then Some(tree[p]) else None
  }

  /** `tree` after the writes `w`, applied first to last. */
  function Overlay(tree: Tree, w: seq<Write>): Tree
    decreases |w|
  {
    if w == [] then tree else Overlay(tree[w[0].0 := w[0].1], w[1..])
  }

  /** The content left at `p` by the last write to `p` in `w`, if there is one. */
  function LastWrite(w: seq<Write>, p: Path): Option<Content>
    decreases |w|
  {
    if w == [] then None
    else if w[|w| - 1].0 == p then Some(w[|w| - 1].1)
    else LastWrite(w[..|w| - 1], p)
  }

  /** The last write to `p` in `a + b` is in `b` if `b` writes `p` at all. */
  lemma {:induction false} LastWriteConcat(a: seq<Write>, b: seq<Write>, p: Path)
    ensures LastWrite(a + b, p) == if LastWrite(b, p).Some? then LastWrite(b, p) else LastWrite(a, p)
    decreases |b|
  {
    if b == [] {
      assert a + b == a;
    } else {
      assert (a + b)[..|a + b| - 1] == a + b[..|b| - 1];
      LastWriteConcat(a, b[..|b| - 1], p);
    }
  }

  /** Applying writes in order leaves at each path the last content written there, or the old content. */
  lemma {:induction false} OverlayAt(tree: Tree, w: seq<Write>, p: Path)
    ensures Get(Overlay(tree, w), p) == if LastWrite(w, p).Some? then LastWrite(w, p) else Get(tree, p)
    decreases |w|
  {
    if w != [] {
      var x := w[0];
      OverlayAt(tree[x.0 := x.1], w[1..], p);
      assert w == [x] + w[1..];
      LastWriteConcat([x], w[1..], p);
      assert LastWrite([x], p) == if x.0 == p then Some(x.1) else LastWrite([], p);
    }
  }

  /** Applying `a + b` is applying `a`, then `b` to the result. */
  lemma {:induction false} OverlayConcat(tree: Tree, a: seq<Write>, b: seq<Write>)
    ensures Overlay(tree, a + b) == Overlay(Overlay(tree, a), b)
    decreases |a|
  {
    if a != [] {
      assert (a + b)[0] == a[0] && (a + b)[1..] == a[1..] + b;
      OverlayConcat(tree[a[0].0 := a[0].1], a[1..], b);
    } else {
      assert a + b == b;
    }
  }

  /** The writes of a run of entries that are all extractable. */
  function MemberWrites(es: seq<Entry>): (w: seq<Write>)
    requires forall i :: 0 <= i < |es| ==> es[i].Member?
    ensures |w| == |es|
    ensures forall i :: 0 <= i < |es| ==> w[i] == (es[i].path, es[i].content)
  {
    if es == [] then [] else [(es[0].path, es[0].content)] + MemberWrites(es[1..])
  }

  /** The index of the first entry that raises, or the number of entries when none does. */
  function FailureIndex(entries: seq<Entry>): (k: nat)
    ensures k <= |entries|
    ensures forall j :: 0 <= j < k ==> entries[j].Member?
    ensures k < |entries| ==> !entries[k].Member?
  {
    if entries == [] || !entries[0].Member? then 0 else 1 + FailureIndex(entries[1..])
  }

  /** The writes that extracting `entries` performs: those of every entry before the first failing one. */
  function Applied(entries: seq<Entry>): (w: seq<Write>)
    ensures |w| == FailureIndex(entries)
    ensures forall j :: 0 <= j < |w| ==> w[j] == (entries[j].path, entries[j].content)
  {
    MemberWrites(entries[..FailureIndex(entries)])
  }

  /** The exception the first failing entry raises, if any. */
  function FirstFailure(entries: seq<Entry>): (r: Option<Raised>)
    ensures r.None? <==> forall j :: 0 <= j < |entries| ==> entries[j].Member?
    ensures r.Some? ==> FailureIndex(entries) < |entries| && r.value.path == entries[FailureIndex(entries)].path
                        && (r.value.OSError? <==> entries[FailureIndex(entries)].Unextractable?)
  {
    var k := FailureIndex(entries);
    if k == |entries| then None
    else if entries[k].Unextractable? then Some(OSError(entries[k].path))
    else Some(IOError(entries[k].path))
  }

  /**
   * `layer.extractall(path=output)`: the entries are extracted one after
   * another; the first one that fails raises and ends the call, and what the
   * entries before it wrote stays on disk.
   */
  function ExtractAll(tree: Tree, entries: seq<Entry>): (r: (Tree, Option<Raised>))
    ensures r.0 == Overlay(tree, Applied(entries))
    ensures r.1 == FirstFailure(entries)
    decreases |entries|
  {
    if entries == [] then (tree, None)
    else
      match entries[0]
      case Unextractable(p) => (tree, Some(OSError(p)))
      case Unwritable(p) => (tree, Some(IOError(p)))
      case Member(p, c) =>
        var r := ExtractAll(tree[p := c], entries[1..]);
        var k := FailureIndex(entries[1..]);
        assert entries[..1 + k] == [entries[0]] + entries[1..][..k];
        assert Applied(entries) == [(p, c)] + Applied(entries[1..]);
        r
  }
}
