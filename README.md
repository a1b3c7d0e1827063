# undocker, modelled in Dafny

undocker extracts the file tree of a container image from a `docker save`
archive read on standard input, without a container runtime. It resolves an
image reference `name[:tag]` through the archive's `repositories` index to
the image's top layer, follows each layer's `parent` link (from the
`<id>/json` record) down to the base layer, and then either lists the chain
base first (`--list`) or extracts each selected layer's `<id>/layer.tar`
onto the output directory, base first, so that more recent layers overwrite
older ones at the same path. An `OSError` while extracting a layer either
costs only the rest of that layer (`--ignore-errors`) or ends the run; an
`IOError` always ends it.

The model works on the archive already parsed:

- `ImageRef` (`image_ref.dfy`): splitting the reference at its first `:`
  (tag `latest` when there is none) and the exact lookup
  `repositories[name][tag]`.
- `Layers` (`layers.dfy`): the parent-chain walk `find_layers`, its reference
  definition (`IsChain`, the `k`-th ancestor `Climb`) and the list-mode order.
- `LayerFiles` (`layer_files.dfy`): one `layer.tar` as a sequence of entries,
  the output directory as a map from path to content, and `extractall` as
  "write the entries in order until the first one that raises", telling an
  `OSError` from an `IOError`.
- `Undocker` (`undocker.dfy`): the extraction loop of `main` as the method
  `ExtractLayers`, proved equal to the function `Extracted`, and `main` itself
  (after argument parsing) as the method `Run`, which returns the exit status,
  the list printed in list mode and the output directory afterwards.
- `Basics` (`basics.dfy`): `Option`, `Result`, `Reverse`.

Behaviour of the code worth noting:

- `find_layers` has no cycle guard: on a parent cycle its recursion goes on
  until the Python interpreter's recursion limit ends the process. The model
  carries a visited set only so that the walk is a terminating function; it
  reports `Cycle`, and `Layers.FindLayersErrors` proves it does so only on
  graphs where the recursion of `find_layers` would never end. `Run` exits
  with status 1 there, as the uncaught error does.
- `extractall` stops at the first entry that raises, so under
  `--ignore-errors` an `OSError` loses the rest of that layer, and the loop
  goes on with the next layer.
- The program is Python 2, where `IOError` is not an `OSError`: an entry
  whose file cannot be opened for writing raises an `IOError`, which passes
  the `except OSError` clause and ends the run with status 1, with or
  without `--ignore-errors`.
- When the output path exists and is not a directory, `os.mkdir` raises and
  the process exits with status 1.
- A missing `<id>/layer.tar` raises `KeyError`, which `--ignore-errors`
  does not cover either.

## Model

| member | source | states |
|---|---|---|
| `ImageRef.SplitAtFirstColon` | undocker.py:67 | `None` exactly when the text has no `:`; otherwise the part before has no `:` and joining the parts with `:` gives the text back |
| `ImageRef.SplitRef` | undocker.py:66-69 | without a `:` the name is the whole reference and the tag `latest`; with one, the name is the text before the first `:` and the tag all the rest |
| `ImageRef.SplitAtFirstColonOfJoin` | undocker.py:67 | splitting `name:tag` with a colon-free name yields exactly `name` and `tag`, colons in the tag included |
| `ImageRef.SplitRefJoinRef` | undocker.py:66-69 | round trip: splitting the joined `name:tag` gives back the same reference |
| `ImageRef.Resolve` | undocker.py:66-84 | the reference is split, then looked up: it succeeds exactly when the split name is in the index and the split tag under it, with `repos[name][tag]`; see `NoTagMeansLatest`, `ResolveSplitsAtFirstColon` |
| `ImageRef.Lookup` | undocker.py:78-84 | succeeds exactly when the name is in the index and the tag under it, with `repos[name][tag]`; otherwise fails with `ImageNotFound(name, tag)`, whichever key is missing |
| `ImageRef.NoTagMeansLatest` | undocker.py:66-69 | resolving `name` and resolving `name:latest` give the same result, success or failure |
| `ImageRef.ResolveSplitsAtFirstColon` | undocker.py:66-84 | `name:tag` resolves to `repos[name][tag]` when both keys exist and otherwise to `ImageNotFound(name, tag)` |
| `Basics.Reverse` | undocker.py:90 | same length, element `k` is element `len - 1 - k` of the input, as `reversed()` yields them |
| `Layers.WalkFrom` | undocker.py:46-59 | a successful walk is a complete chain starting at the given id and avoiding the ids already visited; a missing-metadata error names an id without a record |
| `Layers.FindLayers` | undocker.py:46-59 | `find_layers(img, top)` materialised by `list(...)` at line 87: `WalkFrom` from `top` with nothing visited; a success is the complete chain from `top`, a missing record an id without metadata; see `FindLayersExact`, `FindLayersFails`, `FindLayersErrors` |
| `Layers.ChainNoRepeat` | undocker.py:55-59 | two positions of a complete chain never hold the same id |
| `Layers.ChainIsDistinct` | undocker.py:55-59 | a complete parent chain has no duplicates |
| `Layers.WalkFromComplete` | undocker.py:46-59 | on a complete duplicate-free chain disjoint from the visited ids, the walk returns exactly that chain |
| `Layers.FindLayersExact` | undocker.py:46-59 | the walk from `top` returns `c` if and only if `c` starts at `top`, each id's parent is the next id, every id has metadata and the last has no parent |
| `Layers.FindLayersFails` | undocker.py:46-59 | the walk fails if and only if no complete chain hangs below `top` |
| `Layers.ChainIsAncestry` | undocker.py:55-59 | element `k` of a chain is the `k`-th ancestor of its first id, and there is no ancestor beyond the last, so the length is the number of ancestors including the top |
| `Layers.ClimbAdd` | undocker.py:56-58 | climbing `a + b` parent links is climbing `a` and then `b` |
| `Layers.ClimbPeriodic` | undocker.py:56-58 | once an ancestor repeats, every further ancestor exists and has metadata |
| `Layers.ClimbStep` | undocker.py:56-58 | one more parent link from the `n`-th ancestor reaches its parent |
| `Layers.WalkFromErrors` | undocker.py:46-59 | from the middle of a walk, a missing record is a reachable ancestor and a reported cycle means ancestors never run out |
| `Layers.FindLayersErrors` | undocker.py:46-59 | a missing-metadata error names a reachable ancestor with no record; a reported cycle happens only when every ancestor exists and has a record, so the source's recursion would not end |
| `Layers.ListingIsBaseToTop` | undocker.py:87-91 | the listed ids start with the parentless base, end with the top, and each id is preceded by its parent |
| `LayerFiles.LastWriteConcat` | undocker.py:96-104 | the last write to a path in `a + b` comes from `b` when `b` writes it, else from `a` |
| `LayerFiles.OverlayAt` | undocker.py:104 | after applying writes in order, each path holds its last written content, or its old content when nothing wrote it |
| `LayerFiles.OverlayConcat` | undocker.py:96-104 | applying `a + b` equals applying `a` and then `b` |
| `LayerFiles.MemberWrites` | undocker.py:104 | one write per extractable entry, same path and content, same order |
| `LayerFiles.FailureIndex` | undocker.py:103-105 | every entry before the index extracts, and the entry at the index (if any) raises an `OSError` or an `IOError` |
| `LayerFiles.Applied` | undocker.py:103-105 | the writes are exactly those of the entries before the first failing one, in order |
| `LayerFiles.FirstFailure` | undocker.py:104-105 | the exception that leaves `extractall`: none exactly when every entry is extractable, otherwise the exception of the entry at `FailureIndex`, naming its path: an `OSError` exactly when that entry cannot be extracted, an `IOError` when it cannot be written |
| `LayerFiles.ExtractAll` | undocker.py:101-105 | extracting a layer leaves the tree with the writes before the first failing entry applied, and reports the exception that entry raises |
| `Undocker.IsSelected` | undocker.py:97 | the negation of the test `args.layer and not id in args.layer`: no `--layer` given, or `id` among them; see `Selected`, `SelectedAll` |
| `Undocker.Selected` | undocker.py:96-98 | a layer is kept exactly when it is in the chain and either no `--layer` was given or it is one of them |
| `Undocker.SelectedAll` | undocker.py:97 | with no `--layer`, every layer of the chain is extracted, in chain order |
| `Undocker.Continues` | undocker.py:103-111 | the loop goes past a layer when its extraction raises nothing, or raises an `OSError` under `--ignore-errors`; an `IOError` is not caught by `except OSError`; see `ExtractedStopsAtFirst`, `ExtractedSucceeds` |
| `Undocker.Extracted` | undocker.py:96-111 | the loop over the base-first chain: skip unselected layers, stop on a missing `layer.tar`, extract, stop on what `Continues` rejects; described by `ExtractedPresent`, `ExtractedPrefix`, `ExtractedFailure`, `ExtractedStopsAtFirst`, `ExtractedSucceeds`, `ExtractedOverlay` |
| `Undocker.ExtractLayers` | undocker.py:96-111 | the loop over `reversed(layers)` leaves the tree, extracted layers and error given by `Extracted` on the reversed chain |
| `Undocker.ExtractedPresent` | undocker.py:101-102 | only layers whose `layer.tar` is in the archive are extracted |
| `Undocker.ExtractedPrefix` | undocker.py:96-111 | the extracted layers are a prefix of the selected ones in base-to-top order, all of them when nothing was raised, and those before the missing one when a `layer.tar` is absent |
| `Undocker.ExtractedFailure` | undocker.py:103-111 | an exception is reported only when it is an `IOError` or `--ignore-errors` is off, by the last extracted layer, and it is what that layer's first failing entry raises |
| `Undocker.ExtractedStopsAtFirst` | undocker.py:96-111 | every extracted layer before the last went through (no exception, or an `OSError` under `--ignore-errors`), and so did the last unless the loop stopped on what it raised: the loop stops at the first layer whose exception it does not catch |
| `Undocker.ExtractedSucceeds` | undocker.py:96-111 | the run ends without error if and only if every selected layer has a `layer.tar` and either extracts without failure or raises only an `OSError` under `--ignore-errors` |
| `Undocker.ExtractedOverlay` | undocker.py:96-111 | the final tree is the starting tree with the writes of the extracted layers applied in base-to-top order |
| `Undocker.IgnoreErrorsExtractsAll` | undocker.py:103-109 | under `--ignore-errors`, when every selected layer archive is present and none raises an `IOError`, every selected layer is extracted and an `OSError` loses only the rest of its layer |
| `Undocker.AbortSkipsLaterLayers` | undocker.py:103-111 | without `--ignore-errors`, the run stops at the first selected layer that raises: every layer extracted before it raised nothing, it is the last one extracted, and no later selected layer is touched |
| `Undocker.NoLayerWritesPath` | undocker.py:96-104 | layers none of which writes a path write it in no combination |
| `Undocker.UntouchedPathKept` | undocker.py:96-104 | a path that no extracted layer writes keeps its previous content |
| `Undocker.UpperLayerWins` | undocker.py:96-104 | a path holds the content of the most recent extracted layer that writes it |
| `Undocker.ImageChain` | undocker.py:66-87 | the top-first chain of the referenced image: none when resolution fails; otherwise the complete parent chain starting at the resolved top layer, or none when the walk fails |
| `Undocker.ImageChainExact` | undocker.py:66-87 | the chain is `c` exactly when the reference resolves and `c` is the complete parent chain starting at the resolved layer, so `list(find_layers(...))` returns exactly then |
| `Undocker.Run` | undocker.py:62-111 | resolution or walk failure exits 1 leaving the output untouched; list mode exits 0 printing the reversed chain and leaving the output untouched; a non-directory output path exits 1; otherwise the output directory (created if absent) holds the extraction result and the status is 0 exactly when nothing was raised |

## Left out

- Argument parsing and logging setup (`parse_args`, `logging.basicConfig`) and every log message, including the debug output of the `os`, `architecture` and `author` fields of each layer record; `--list`, `--layer`, `--ignore-errors` and the image reference arrive as `Options`.
- Reading standard input into a temporary file, tar parsing and JSON decoding: the archive arrives as parsed maps (`Archive`), and closing it is not modelled.
- The internals of `extractall`: file modes, ownership, directories, links and device nodes. A layer is a sequence of (path, content) entries plus entries whose extraction raises `OSError` or `IOError`; which entries fail is fixed per entry, not computed from what the output tree already holds. A malformed nested tar, which makes `tarfile` raise while reading, is not modelled.
- `Layers.WalkFrom`: the visited set and the `Cycle` result are not in the source, whose recursion on a cyclic graph ends only at the interpreter's recursion limit; for the same reason a very long acyclic chain, which the source would also abort at that limit, walks successfully in the model.
- Names, tags and layer ids are compared as text. Under Python 2 the `repositories` index and the layer records decode to `unicode` strings, while the command-line reference and the tar member names are byte strings, so a non-ASCII name, tag or layer id never matches in the source (a `KeyError`, exit status 1), whereas `ImageRef.Lookup` and `Layers.WalkFrom` match it.
- The output directory is a map from path to content; `os.mkdir` failures other than an existing non-directory path (permissions, missing parent) are not modelled.
- The newline-joined text that list mode prints: the model returns the list of ids.
- Whiteout (deletion) markers and content-hash checks: the code does not implement them either.
