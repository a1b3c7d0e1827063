/**
 * The orchestration in `main`: resolve the image reference, walk its layer
 * chain, then either list the chain base first or extract the selected
 * layers base first onto the output directory.
 */
module Undocker {
  import opened Basics
  import opened ImageRef
  import opened Layers
  import opened LayerFiles

  /** Every `<id>/layer.tar` member of the archive, already read as its list of entries. */
  type LayerTars = map<LayerId, seq<Entry>>

  /** The image archive read from standard input, its members already parsed. */
  datatype Archive = Archive(repositories: Repositories, meta: Metadata, tars: LayerTars)

  /**
   * The command line: the image reference, `--list`, the `--layer` ids
   * (empty when the option is not given) and `--ignore-errors`.
   */
  datatype Options = Options(image: string, listOnly: bool, layers: seq<LayerId>, ignoreErrors: bool)

  /** What the `--output` path holds before the run. */
  datatype OutputDir = Absent | NotADirectory | Directory(tree: Tree)

  datatype ExtractError =
    | LayerTarMissing(id: LayerId)              // `<id>/layer.tar` is not in the archive (a KeyError)
    | ExtractFailed(id: LayerId, raised: Raised) // what extracting layer `id` raised, not ignored

  /** The state the extraction loop leaves: the tree, the layers it extracted in order, and what it raised. */
  datatype Extraction = Extraction(tree: Tree, extracted: seq<LayerId>, error: Option<ExtractError>)

  /** The loop extracts `id` when no `--layer` was given or `id` is one of them. */
  predicate IsSelected(sel: seq<LayerId>, id: LayerId) {
    sel == [] || id in sel
  }

  /** The layers of `order` that the loop extracts, in the order it meets them. */
  function Selected(order: seq<LayerId>, sel: seq<LayerId>): (r: seq<LayerId>)
    ensures forall x :: x in r <==> x in order && IsSelected(sel, x)
  {
    if order == [] then []
    else (if IsSelected(sel, order[0]) then [order[0]] else []) + Selected(order[1..], sel)
  }

  /** With no `--layer` option every layer of the chain is extracted, in chain order. */
  lemma {:induction false} SelectedAll(order: seq<LayerId>)
    ensures Selected(order, []) == order
  {
    if order != [] {
      SelectedAll(order[1..]);
      assert [order[0]] + order[1..] == order;
    }
  }

  /**
   * The loop goes on past a layer with these entries: nothing raised, or an
   * OSError under `--ignore-errors`. An IOError escapes `except OSError`.
   */
  predicate Continues(entries: seq<Entry>, ignore: bool) {
    FirstFailure(entries).None? || (ignore && FirstFailure(entries).value.OSError?)
  }

  /** The writes the layers `ids` make, in order: each layer's entries up to its first failing one. */
  function LayerWrites(ids: seq<LayerId>, tars: LayerTars): seq<Write>
    requires forall id :: id in ids ==> id in tars
  {
    if ids == [] then [] else Applied(tars[ids[0]]) + LayerWrites(ids[1..], tars)
  }

  function Prepend(done: seq<LayerId>, r: Extraction): Extraction {
    Extraction(r.tree, done + r.extracted, r.error)
  }

  /**
   * The extraction loop over `order` (base layer first) starting from `tree`:
   * unselected layers are skipped; a missing `layer.tar` stops the loop; an
   * OSError stops the loop unless `ignore`, in which case only the rest of
   * that layer is lost; an IOError always stops it.
   */
  function Extracted(tree: Tree, order: seq<LayerId>, tars: LayerTars, sel: seq<LayerId>, ignore: bool): Extraction
    decreases |order|
  {
    if order == [] then Extraction(tree, [], None)
    else
      var id := order[0];
      if !IsSelected(sel, id) then Extracted(tree, order[1..], tars, sel, ignore)
      else if id !in tars then Extraction(tree, [], Some(LayerTarMissing(id)))
      else
        var (t, failure) := ExtractAll(tree, tars[id]);
        if failure.Some? && (failure.value.IOError? || !ignore) then Extraction(t, [id], Some(ExtractFailed(id, failure.value)))
        else Prepend([id], Extracted(t, order[1..], tars, sel, ignore))
  }

  /**
   * One step of the loop: what `Extracted` does with the layer `id` in front of
   * `rest`, after the layers `done` have been extracted.
   */
  lemma ExtractedStep(done: seq<LayerId>, tree: Tree, id: LayerId, rest: seq<LayerId>, tars: LayerTars, sel: seq<LayerId>, ignore: bool)
    ensures !IsSelected(sel, id) ==>
              Prepend(done, Extracted(tree, [id] + rest, tars, sel, ignore)) == Prepend(done, Extracted(tree, rest, tars, sel, ignore))
    ensures IsSelected(sel, id) && id !in tars ==>
              Prepend(done, Extracted(tree, [id] + rest, tars, sel, ignore)) == Extraction(tree, done, Some(LayerTarMissing(id)))
    ensures IsSelected(sel, id) && id in tars ==>
              var (t, failure) := ExtractAll(tree, tars[id]);
              Prepend(done, Extracted(tree, [id] + rest, tars, sel, ignore))
                == if failure.Some? && (failure.value.IOError? || !ignore)
                   then Extraction(t, done + [id], Some(ExtractFailed(id, failure.value)))
                   else Prepend(done + [id], Extracted(t, rest, tars, sel, ignore))
  {
  }

  /**
   * The loop `for id in reversed(layers)` of `main`, over the top-first chain
   * `layers`, writing into the output tree `tree0`.
   */
  method ExtractLayers(tree0: Tree, layers: seq<LayerId>, tars: LayerTars, sel: seq<LayerId>, ignore: bool)
    returns (tree: Tree, extracted: seq<LayerId>, error: Option<ExtractError>)
    ensures Extraction(tree, extracted, error) == Extracted(tree0, Reverse(layers), tars, sel, ignore)
  {
    tree, extracted := tree0, [];
    var i := |layers|;
    assert layers[..i] == layers;
    while i > 0
      invariant 0 <= i <= |layers|
      invariant Extracted(tree0, Reverse(layers), tars, sel, ignore)
                == Prepend(extracted, Extracted(tree, Reverse(layers[..i]), tars, sel, ignore))
    {
      i := i - 1;
      var id := layers[i];
      assert layers[..i + 1][..i] == layers[..i];
      assert Reverse(layers[..i + 1]) == [id] + Reverse(layers[..i]);
      ExtractedStep(extracted, tree, id, Reverse(layers[..i]), tars, sel, ignore);
      if !IsSelected(sel, id) {
        continue;
      }
      if id !in tars {
        return tree, extracted, Some(LayerTarMissing(id));
      }
      var (t, failure) := ExtractAll(tree, tars[id]);
      tree, extracted := t, extracted + [id];
      // an IOError passes `except OSError`; an OSError is re-raised unless ignored
      if failure.Some? && (failure.value.IOError? || !ignore) {
        return tree, extracted, Some(ExtractFailed(id, failure.value));
      }
    }
    return tree, extracted, None;
  }

  /** The loop only extracts layers whose `layer.tar` is present. */
  lemma {:induction false} ExtractedPresent(tree: Tree, order: seq<LayerId>, tars: LayerTars, sel: seq<LayerId>, ignore: bool)
    ensures forall id :: id in Extracted(tree, order, tars, sel, ignore).extracted ==> id in tars
    decreases |order|
  {
    if order != [] && IsSelected(sel, order[0]) && order[0] in tars {
      var (t, failure) := ExtractAll(tree, tars[order[0]]);
      ExtractedPresent(t, order[1..], tars, sel, ignore);
    } else if order != [] {
      ExtractedPresent(tree, order[1..], tars, sel, ignore);
    }
  }

  /**
   * The layers extracted are the selected ones, in order, up to where the
   * loop stopped: all of them when nothing was raised, and when a
   * `layer.tar` was missing, those before that layer.
   */
  lemma {:induction false} ExtractedPrefix(tree: Tree, order: seq<LayerId>, tars: LayerTars, sel: seq<LayerId>, ignore: bool)
    ensures Extracted(tree, order, tars, sel, ignore).extracted <= Selected(order, sel)
    ensures Extracted(tree, order, tars, sel, ignore).error.None? ==>
              Extracted(tree, order, tars, sel, ignore).extracted == Selected(order, sel)
    ensures Extracted(tree, order, tars, sel, ignore).error.Some? &&
            Extracted(tree, order, tars, sel, ignore).error.value.LayerTarMissing? ==>
              Extracted(tree, order, tars, sel, ignore).error.value.id !in tars &&
              Extracted(tree, order, tars, sel, ignore).extracted + [Extracted(tree, order, tars, sel, ignore).error.value.id]
                <= Selected(order, sel)
    decreases |order|
  {
    if order != [] {
      var id := order[0];
      var rest := Selected(order[1..], sel);
      if !IsSelected(sel, id) {
        ExtractedPrefix(tree, order[1..], tars, sel, ignore);
        assert Selected(order, sel) == rest;
      } else {
        assert Selected(order, sel) == [id] + rest;
        if id in tars {
          var (t, failure) := ExtractAll(tree, tars[id]);
          if !(failure.Some? && (failure.value.IOError? || !ignore)) {
            ExtractedPrefix(t, order[1..], tars, sel, ignore);
            var r' := Extracted(t, order[1..], tars, sel, ignore);
            if r'.error.Some? && r'.error.value.LayerTarMissing? {
              assert [id] + r'.extracted + [r'.error.value.id] == [id] + (r'.extracted + [r'.error.value.id]);
            }
          }
        }
      }
    }
  }

  /**
   * An exception is reported only when it is an IOError or `--ignore-errors`
   * is off, by the last layer extracted, at its first failing entry.
   */
  lemma {:induction false} ExtractedFailure(tree: Tree, order: seq<LayerId>, tars: LayerTars, sel: seq<LayerId>, ignore: bool)
    ensures var r := Extracted(tree, order, tars, sel, ignore);
      r.error.Some? && r.error.value.ExtractFailed? ==>
        && (r.error.value.raised.IOError? || !ignore) && |r.extracted| > 0
        && r.extracted[|r.extracted| - 1] == r.error.value.id
        && r.error.value.id in tars
        && FirstFailure(tars[r.error.value.id]) == Some(r.error.value.raised)
    decreases |order|
  {
    if order != [] && IsSelected(sel, order[0]) && order[0] in tars {
      var (t, failure) := ExtractAll(tree, tars[order[0]]);
      ExtractedFailure(t, order[1..], tars, sel, ignore);
    } else if order != [] {
      ExtractedFailure(tree, order[1..], tars, sel, ignore);
    }
  }

  /**
   * The loop stops at the first layer that raises what it does not ignore:
   * every extracted layer but the last went through, and the last one too
   * unless it raised.
   */
  lemma {:induction false} ExtractedStopsAtFirst(tree: Tree, order: seq<LayerId>, tars: LayerTars, sel: seq<LayerId>, ignore: bool)
    ensures var r := Extracted(tree, order, tars, sel, ignore);
      forall k :: 0 <= k < |r.extracted| - 1 ==> r.extracted[k] in tars && Continues(tars[r.extracted[k]], ignore)
    ensures var r := Extracted(tree, order, tars, sel, ignore);
      (r.error.None? || r.error.value.LayerTarMissing?) ==>
        forall k :: 0 <= k < |r.extracted| ==> r.extracted[k] in tars && Continues(tars[r.extracted[k]], ignore)
    decreases |order|
  {
    if order != [] && IsSelected(sel, order[0]) && order[0] in tars {
      var id := order[0];
      var (t, failure) := ExtractAll(tree, tars[id]);
      ExtractedStopsAtFirst(t, order[1..], tars, sel, ignore);
      if !(failure.Some? && (failure.value.IOError? || !ignore)) {
        assert Continues(tars[id], ignore);
        var r' := Extracted(t, order[1..], tars, sel, ignore);
        forall k | 0 < k < |[id] + r'.extracted| ensures ([id] + r'.extracted)[k] == r'.extracted[k - 1] {
        }
      }
    } else if order != [] {
      ExtractedStopsAtFirst(tree, order[1..], tars, sel, ignore);
    }
  }

  /**
   * The loop runs to the end exactly when every selected layer is present and
   * extracts cleanly, or raises only an OSError under `--ignore-errors`.
   */
  lemma {:induction false} ExtractedSucceeds(tree: Tree, order: seq<LayerId>, tars: LayerTars, sel: seq<LayerId>, ignore: bool)
    ensures Extracted(tree, order, tars, sel, ignore).error.None? <==>
            forall id :: id in Selected(order, sel) ==> id in tars && Continues(tars[id], ignore)
    decreases |order|
  {
    if order != [] {
      var id := order[0];
      if id in tars && IsSelected(sel, id) {
        var (t, failure) := ExtractAll(tree, tars[id]);
        ExtractedSucceeds(t, order[1..], tars, sel, ignore);
      } else {
        ExtractedSucceeds(tree, order[1..], tars, sel, ignore);
      }
    }
  }

  /** The output tree is the starting tree with the writes of the extracted layers applied in order. */
  lemma {:induction false} ExtractedOverlay(tree: Tree, order: seq<LayerId>, tars: LayerTars, sel: seq<LayerId>, ignore: bool)
    ensures forall id :: id in Extracted(tree, order, tars, sel, ignore).extracted ==> id in tars
    ensures Extracted(tree, order, tars, sel, ignore).tree
            == Overlay(tree, LayerWrites(Extracted(tree, order, tars, sel, ignore).extracted, tars))
    decreases |order|
  {
    ExtractedPresent(tree, order, tars, sel, ignore);
    if order != [] {
      var id := order[0];
      if !IsSelected(sel, id) {
        ExtractedOverlay(tree, order[1..], tars, sel, ignore);
      } else if id in tars {
        var (t, failure) := ExtractAll(tree, tars[id]);
        if failure.Some? && (failure.value.IOError? || !ignore) {
          assert LayerWrites([id], tars) == Applied(tars[id]) + LayerWrites([], tars);
          assert Applied(tars[id]) + [] == Applied(tars[id]);
        } else {
          var r' := Extracted(t, order[1..], tars, sel, ignore);
          ExtractedOverlay(t, order[1..], tars, sel, ignore);
          assert ([id] + r'.extracted)[1..] == r'.extracted;
          assert LayerWrites([id] + r'.extracted, tars) == Applied(tars[id]) + LayerWrites(r'.extracted, tars);
          OverlayConcat(tree, Applied(tars[id]), LayerWrites(r'.extracted, tars));
        }
      }
    }
  }

  /**
   * Under `--ignore-errors`, when no selected layer is missing or raises an
   * IOError, every selected layer is extracted, an OSError costing only the
   * rest of its layer.
   */
  lemma IgnoreErrorsExtractsAll(tree: Tree, order: seq<LayerId>, tars: LayerTars, sel: seq<LayerId>)
    requires forall id :: id in Selected(order, sel) ==>
               id in tars && (FirstFailure(tars[id]).None? || FirstFailure(tars[id]).value.OSError?)
    ensures Extracted(tree, order, tars, sel, true).error.None?
    ensures Extracted(tree, order, tars, sel, true).extracted == Selected(order, sel)
    ensures Extracted(tree, order, tars, sel, true).tree == Overlay(tree, LayerWrites(Selected(order, sel), tars))
  {
    ExtractedSucceeds(tree, order, tars, sel, true);
    ExtractedPrefix(tree, order, tars, sel, true);
    ExtractedOverlay(tree, order, tars, sel, true);
  }

  /**
   * Without `--ignore-errors`, the run ends at the first selected layer whose
   * extraction raises: every layer before it extracted cleanly and no later
   * selected layer is extracted.
   */
  lemma AbortSkipsLaterLayers(tree: Tree, order: seq<LayerId>, tars: LayerTars, sel: seq<LayerId>, id: LayerId, raised: Raised)
    requires Extracted(tree, order, tars, sel, false).error == Some(ExtractFailed(id, raised))
    ensures var done := Extracted(tree, order, tars, sel, false).extracted;
      && |done| > 0 && done[|done| - 1] == id
      && done <= Selected(order, sel)
      && id in tars && FirstFailure(tars[id]) == Some(raised)
      && forall k :: 0 <= k < |done| - 1 ==> done[k] in tars && FirstFailure(tars[done[k]]).None?
  {
    ExtractedPrefix(tree, order, tars, sel, false);
    ExtractedFailure(tree, order, tars, sel, false);
    ExtractedStopsAtFirst(tree, order, tars, sel, false);
  }

  /** No layer in `ids` writes `p`, so neither do they all together. */
  lemma {:induction false} NoLayerWritesPath(ids: seq<LayerId>, tars: LayerTars, p: Path)
    requires forall id :: id in ids ==> id in tars
    requires forall k :: 0 <= k < |ids| ==> LastWrite(Applied(tars[ids[k]]), p).None?
    ensures LastWrite(LayerWrites(ids, tars), p).None?
    decreases |ids|
  {
    if ids != [] {
      assert LastWrite(Applied(tars[ids[0]]), p).None?;
      NoLayerWritesPath(ids[1..], tars, p);
      LastWriteConcat(Applied(tars[ids[0]]), LayerWrites(ids[1..], tars), p);
    }
  }

  /** A path no extracted layer writes keeps the content it had before the run. */
  lemma UntouchedPathKept(tree: Tree, ids: seq<LayerId>, tars: LayerTars, p: Path)
    requires forall id :: id in ids ==> id in tars
    requires forall k :: 0 <= k < |ids| ==> LastWrite(Applied(tars[ids[k]]), p).None?
    ensures Get(Overlay(tree, LayerWrites(ids, tars)), p) == Get(tree, p)
  {
    NoLayerWritesPath(ids, tars, p);
    OverlayAt(tree, LayerWrites(ids, tars), p);
  }

  /** The content at `p` is the one the most recent layer that writes `p` leaves there. */
  lemma {:induction false} UpperLayerWins(tree: Tree, ids: seq<LayerId>, tars: LayerTars, j: nat, p: Path)
    requires forall id :: id in ids ==> id in tars
    requires j < |ids| && LastWrite(Applied(tars[ids[j]]), p).Some?
    requires forall k :: j < k < |ids| ==> LastWrite(Applied(tars[ids[k]]), p).None?
    ensures Get(Overlay(tree, LayerWrites(ids, tars)), p) == LastWrite(Applied(tars[ids[j]]), p)
    decreases |ids|
  {
    var first := Applied(tars[ids[0]]);
    OverlayConcat(tree, first, LayerWrites(ids[1..], tars));
    if j == 0 {
      NoLayerWritesPath(ids[1..], tars, p);
      LastWriteConcat(first, LayerWrites(ids[1..], tars), p);
      OverlayAt(tree, LayerWrites(ids, tars), p);
    } else {
      UpperLayerWins(Overlay(tree, first), ids[1..], tars, j - 1, p);
    }
  }

  /** What `--output` holds once `main` has made sure it is a directory. */
  function InitialTree(output: OutputDir): Tree
    requires !output.NotADirectory?
  {
    match output
    case Absent => map[]
    case Directory(t) => t
  }

  /** The top-first layer chain the image reference names, if it resolves and the walk completes. */
  function ImageChain(archive: Archive, image: string): (r: Option<seq<LayerId>>)
    ensures Resolve(archive.repositories, image).Err? ==> r.None?
    ensures r.Some? ==> Resolve(archive.repositories, image).Ok? && IsChain(archive.meta, r.value)
                        && r.value[0] == Resolve(archive.repositories, image).value
  {
    match Resolve(archive.repositories, image)
    case Err(_) => None
    case Ok(top) =>
      match FindLayers(archive.meta, top)
      case Err(_) => None
      case Ok(c) => Some(c)
  }

  /** The chain is found exactly when the reference resolves and a complete parent chain hangs below its layer. */
  lemma ImageChainExact(archive: Archive, image: string, c: seq<LayerId>)
    ensures ImageChain(archive, image) == Some(c) <==>
              Resolve(archive.repositories, image).Ok? && IsChain(archive.meta, c)
              && c[0] == Resolve(archive.repositories, image).value
  {
    if Resolve(archive.repositories, image).Ok? {
      FindLayersExact(archive.meta, Resolve(archive.repositories, image).value, c);
    }
  }

  /**
   * `main` after argument parsing: the exit status, the ids printed in list
   * mode, and the output directory afterwards.
   */
  method Run(opts: Options, archive: Archive, output: OutputDir)
    returns (status: nat, listing: Option<seq<LayerId>>, out: OutputDir)
    ensures status == 0 || status == 1
    ensures ImageChain(archive, opts.image).None? ==> status == 1 && listing.None? && out == output
    ensures ImageChain(archive, opts.image).Some? && opts.listOnly ==>
              status == 0 && listing == Some(Reverse(ImageChain(archive, opts.image).value)) && out == output
    ensures !opts.listOnly ==> listing.None?
    ensures ImageChain(archive, opts.image).Some? && !opts.listOnly && output.NotADirectory? ==>
              status == 1 && out == output
    ensures ImageChain(archive, opts.image).Some? && !opts.listOnly && !output.NotADirectory? ==>
              var r := Extracted(InitialTree(output), Reverse(ImageChain(archive, opts.image).value),
                                 archive.tars, opts.layers, opts.ignoreErrors);
              out == Directory(r.tree) && (status == 0 <==> r.error.None?)
  {
    var ref := SplitRef(opts.image);
    var top := Lookup(archive.repositories, ref);
    if top.Err? {
      // logged, then sys.exit(1)
      return 1, None, output;
    }
    var walk := FindLayers(archive.meta, top.value);
    if walk.Err? {
      // the KeyError (or, on a cycle, the unbounded recursion) ends the process
      return 1, None, output;
    }
    var layers := walk.value;
    if opts.listOnly {
      return 0, Some(Reverse(layers)), output;
    }
    if output.NotADirectory? {
      // os.mkdir on an existing non-directory raises
      return 1, None, output;
    }
    var tree, extracted, error := ExtractLayers(InitialTree(output), layers, archive.tars, opts.layers, opts.ignoreErrors);
    status := if error.None? then 0 else 1;
    listing, out := None, Directory(tree);
  }
}
