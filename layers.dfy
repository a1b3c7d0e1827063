/**
 * The layer chain walker: starting from an image's top layer, follow the
 * `parent` field of each layer's metadata record until a layer has none,
 * yielding the ids top (most recent) first.
 */
module Layers {
  import opened Basics
  import opened ImageRef

  /** The parsed `<id>/json` record; only the parent link matters to the walk. */
  datatype LayerMeta = LayerMeta(parent: Option<LayerId>)

  /** Every `<id>/json` member of the archive, by layer id. */
  type Metadata = map<LayerId, LayerMeta>

  datatype WalkError =
    | MetadataMissing(id: LayerId)  // `<id>/json` is not in the archive (a KeyError in the source)
    | Cycle(id: LayerId)            // the walk came back to `id`; the source recurses without end here

  /**
   * The `k`-th ancestor of `id` (`id` itself for k = 0), reached by reading
   * one metadata record per step; None once a record is missing or has no parent.
   */
  function Climb(meta: Metadata, id: LayerId, k: nat): Option<LayerId>
    decreases k
  {
    if k == 0 then Some(id)
    else if id in meta && meta[id].parent.Some? then Climb(meta, meta[id].parent.value, k - 1)
    else None
  }

  /** The `k`-th ancestor of `id` exists and its metadata record can be read. */
  ghost predicate HasAncestor(meta: Metadata, id: LayerId, k: nat) {
    Climb(meta, id, k).Some? && Climb(meta, id, k).value in meta
  }

  /**
   * `c` is a complete chain: every id has metadata, each one's parent is the
   * next id, and the last one has no parent.
   */
  ghost predicate IsChain(meta: Metadata, c: seq<LayerId>) {
    && |c| > 0
    && (forall i :: 0 <= i < |c| ==> c[i] in meta)
    && (forall i :: 0 <= i < |c| - 1 ==> meta[c[i]].parent == Some(c[i + 1]))
    && meta[c[|c| - 1]].parent.None?
  }

  ghost predicate Distinct(c: seq<LayerId>) {
    forall i, j :: 0 <= i < j < |c| ==> c[i] != c[j]
  }

  /**
   * The walk from `id`, with `visited` the ids already yielded above it.
   * `visited` only bounds the recursion: the source keeps no such set.
   */
  function WalkFrom(meta: Metadata, id: LayerId, visited: set<LayerId>): (r: Result<seq<LayerId>, WalkError>)
    ensures r.Ok? ==> IsChain(meta, r.value) && r.value[0] == id
    ensures r.Ok? ==> forall x :: x in r.value ==> x !in visited
    ensures r.Err? && r.error.MetadataMissing? ==> r.error.id !in meta
    ensures r.Err? && r.error.Cycle? ==> r.error.id in meta
    decreases meta.Keys - visited
  {
    if id !in meta then Err(MetadataMissing(id))
    else if id in visited then Err(Cycle(id))
    else
      match meta[id].parent
      case None => Ok([id])
      case Some(p) =>
        match WalkFrom(meta, p, visited + {id})
        case Ok(rest) => Ok([id] + rest)
        case Err(e) => Err(e)
  }

  /** `find_layers(img, top)`, materialised as a list. */
  function FindLayers(meta: Metadata, top: LayerId): (r: Result<seq<LayerId>, WalkError>)
    ensures r.Ok? ==> IsChain(meta, r.value) && r.value[0] == top
    ensures r.Err? && r.error.MetadataMissing? ==> r.error.id !in meta
  {
    WalkFrom(meta, top, {})
  }

  /** A chain never repeats an id: a repeat would make the walk loop before it reached the base. */
  lemma {:induction false} ChainNoRepeat(meta: Metadata, c: seq<LayerId>, i: nat, j: nat)
    requires IsChain(meta, c) && i < j < |c|
    ensures c[i] != c[j]
    decreases |c| - j
  {
    assert meta[c[i]].parent == Some(c[i + 1]);
    if j < |c| - 1 {
      ChainNoRepeat(meta, c, i + 1, j + 1);
      assert meta[c[j]].parent == Some(c[j + 1]);
    }
  }

  lemma ChainIsDistinct(meta: Metadata, c: seq<LayerId>)
    requires IsChain(meta, c)
    ensures Distinct(c)
  {
    forall i, j | 0 <= i < j < |c| ensures c[i] != c[j] {
      ChainNoRepeat(meta, c, i, j);
    }
  }

  lemma {:induction false} WalkFromComplete(meta: Metadata, c: seq<LayerId>, visited: set<LayerId>)
    requires IsChain(meta, c) && Distinct(c)
    requires forall x :: x in c ==> x !in visited
    ensures WalkFrom(meta, c[0], visited) == Ok(c)
    decreases |c|
  {
    assert c[0] in c && c[0] in meta;
    if |c| > 1 {
      var rest := c[1..];
      assert IsChain(meta, rest) by {
        forall i | 0 <= i < |rest| - 1 ensures meta[rest[i]].parent == Some(rest[i + 1]) {
          assert rest[i] == c[i + 1] && rest[i + 1] == c[i + 2];
        }
      }
      assert Distinct(rest);
      forall x | x in rest ensures x !in visited + {c[0]} {
        var i :| 0 <= i < |rest| && rest[i] == x;
        assert c[i + 1] == x && c[0] != c[i + 1];
      }
      WalkFromComplete(meta, rest, visited + {c[0]});
      assert meta[c[0]].parent == Some(rest[0]);
      assert [c[0]] + rest == c;
    } else {
      assert c == [c[0]] && meta[c[0]].parent.None?;
    }
  }

  /** The walk succeeds with `c` exactly when `c` is the complete chain below `top`. */
  lemma FindLayersExact(meta: Metadata, top: LayerId, c: seq<LayerId>)
    ensures FindLayers(meta, top) == Ok(c) <==> IsChain(meta, c) && c[0] == top
  {
    if IsChain(meta, c) && c[0] == top {
      ChainIsDistinct(meta, c);
      WalkFromComplete(meta, c, {});
    }
  }

  /** The walk fails exactly when no complete chain hangs below `top`. */
  lemma FindLayersFails(meta: Metadata, top: LayerId)
    ensures FindLayers(meta, top).Err? <==> forall c :: !(IsChain(meta, c) && c[0] == top)
  {
    if FindLayers(meta, top).Err? {
      forall c ensures !(IsChain(meta, c) && c[0] == top) {
        FindLayersExact(meta, top, c);
      }
    }
  }

  /** The ids of a chain are the successive ancestors of its first id, and there are no more. */
  lemma {:induction false} ChainIsAncestry(meta: Metadata, c: seq<LayerId>)
    requires IsChain(meta, c)
    ensures forall k :: 0 <= k < |c| ==> Climb(meta, c[0], k) == Some(c[k])
    ensures Climb(meta, c[0], |c|).None?
    decreases |c|
  {
    if |c| > 1 {
      var rest := c[1..];
      assert IsChain(meta, rest) by {
        forall i | 0 <= i < |rest| - 1 ensures meta[rest[i]].parent == Some(rest[i + 1]) {
          assert rest[i] == c[i + 1] && rest[i + 1] == c[i + 2];
        }
      }
      ChainIsAncestry(meta, rest);
      forall k | 0 < k < |c| ensures Climb(meta, c[0], k) == Some(c[k]) {
        assert Climb(meta, c[0], k) == Climb(meta, rest[0], k - 1);
      }
      assert Climb(meta, c[0], |c|) == Climb(meta, rest[0], |rest|);
    }
  }

  /** Climbing `a + b` steps is climbing `a` steps and then `b` more. */
  lemma {:induction false} ClimbAdd(meta: Metadata, id: LayerId, a: nat, b: nat)
    ensures Climb(meta, id, a + b) == match Climb(meta, id, a)
                                      case None => None
                                      case Some(x) => Climb(meta, x, b)
    decreases a
  {
    if a > 0 && id in meta && meta[id].parent.Some? {
      ClimbAdd(meta, meta[id].parent.value, a - 1, b);
    }
  }

  /** Once the ancestors repeat (the `i`-th is the `n`-th), every ancestor exists. */
  lemma {:induction false} ClimbPeriodic(meta: Metadata, top: LayerId, i: nat, n: nat, k: nat)
    requires i < n && Climb(meta, top, i) == Climb(meta, top, n)
    requires forall m :: 0 <= m <= n ==> HasAncestor(meta, top, m)
    ensures HasAncestor(meta, top, k)
    decreases k
  {
    if k > n {
      assert HasAncestor(meta, top, n);
      ClimbAdd(meta, top, n, k - n);
      ClimbAdd(meta, top, i, k - n);
      assert n + (k - n) == k;
      ClimbPeriodic(meta, top, i, n, i + (k - n));
    }
  }

  /** One more step from the `n`-th ancestor reads that ancestor's parent. */
  lemma ClimbStep(meta: Metadata, top: LayerId, n: nat, id: LayerId, p: LayerId)
    requires Climb(meta, top, n) == Some(id) && id in meta && meta[id].parent == Some(p)
    ensures Climb(meta, top, n + 1) == Some(p)
  {
    ClimbAdd(meta, top, n, 1);
  }

  /**
   * The walk from the `|path|`-th ancestor of `top`, `path` holding the
   * ancestors above it, fails only where the source fails or never ends.
   */
  lemma {:induction false} WalkFromErrors(meta: Metadata, top: LayerId, path: seq<LayerId>, id: LayerId)
    requires forall k :: 0 <= k < |path| ==> path[k] in meta && Climb(meta, top, k) == Some(path[k])
    requires Climb(meta, top, |path|) == Some(id)
    ensures WalkFrom(meta, id, Elems(path)).Err? && WalkFrom(meta, id, Elems(path)).error.MetadataMissing? ==>
              exists k :: Climb(meta, top, k) == Some(WalkFrom(meta, id, Elems(path)).error.id)
    ensures WalkFrom(meta, id, Elems(path)).Err? && WalkFrom(meta, id, Elems(path)).error.Cycle? ==>
              forall k :: HasAncestor(meta, top, k)
    decreases meta.Keys - Elems(path)
  {
    var visited := Elems(path);
    if id !in meta {
      assert Climb(meta, top, |path|) == Some(id);
    } else if id in visited {
      var i :| 0 <= i < |path| && path[i] == id;
      forall k ensures HasAncestor(meta, top, k) {
        ClimbPeriodic(meta, top, i, |path|, k);
      }
    } else {
      match meta[id].parent
      case None =>
      case Some(p) =>
        ClimbStep(meta, top, |path|, id, p);
        var path' := path + [id];
        assert Elems(path') == visited + {id};
        WalkFromErrors(meta, top, path', p);
    }
  }

  /**
   * A missing record is one the source would also try to read, and a
   * reported cycle is a graph on which the source's recursion never ends:
   * every ancestor exists and has metadata.
   */
  lemma FindLayersErrors(meta: Metadata, top: LayerId)
    ensures FindLayers(meta, top).Err? && FindLayers(meta, top).error.MetadataMissing? ==>
              FindLayers(meta, top).error.id !in meta &&
              exists k :: Climb(meta, top, k) == Some(FindLayers(meta, top).error.id)
    ensures FindLayers(meta, top).Err? && FindLayers(meta, top).error.Cycle? ==>
              forall k :: HasAncestor(meta, top, k)
  {
    assert Elems<LayerId>([]) == {};
    WalkFromErrors(meta, top, [], top);
  }

  /**
   * The list printed in list mode: the base layer (no parent) first, the top
   * layer last, and each layer's parent just before it.
   */
  lemma ListingIsBaseToTop(meta: Metadata, top: LayerId, c: seq<LayerId>)
    requires FindLayers(meta, top) == Ok(c)
    ensures |Reverse(c)| == |c| > 0
    ensures Reverse(c)[|c| - 1] == top
    ensures Reverse(c)[0] in meta && meta[Reverse(c)[0]].parent.None?
    ensures forall k :: 0 < k < |c| ==> Reverse(c)[k] in meta && meta[Reverse(c)[k]].parent == Some(Reverse(c)[k - 1])
  {
  }
}
