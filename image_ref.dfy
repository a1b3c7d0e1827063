/**
 * Resolving an image reference (`name` or `name:tag`) against the
 * archive's `repositories` index to the image's top layer id.
 */
module ImageRef {
  import opened Basics

  type LayerId = string

  /** The parsed `repositories` member: image name -> tag -> top layer id. */
  type Repositories = map<string, map<string, LayerId>>

  datatype Ref = Ref(name: string, tag: string)

  /** Raised when the name, or the tag under that name, is missing from the index. */
  datatype ResolveError = ImageNotFound(name: string, tag: string)

  const DefaultTag: string := "latest"

  /** Splits `s` at its first `:`; None when `s` holds no `:` at all. */
  function SplitAtFirstColon(s: string): (r: Option<(string, string)>)
    ensures r.None? <==> ':' !in s
    ensures r.Some? ==> ':' !in r.value.0 && s == r.value.0 + ":" + r.value.1
  {
    if s == [] then None
    else if s[0] == ':' then Some(([], s[1..]))
    else
      match SplitAtFirstColon(s[1..])
      case None => None
      case Some(rest) =>
        assert s == [s[0]] + s[1..];
        Some(([s[0]] + rest.0, rest.1))
  }

  /**
   * The image reference as given on the command line: the text before the
   * first `:` is the name and everything after it the tag; without a `:`
   * the whole reference is the name and the tag is "latest".
   */
  function SplitRef(image: string): (r: Ref)
    ensures ':' !in image ==> r == Ref(image, DefaultTag)
    ensures ':' in image ==> ':' !in r.name && image == r.name + ":" + r.tag
  {
    match SplitAtFirstColon(image)
    case None => Ref(image, DefaultTag)
    case Some(parts) => Ref(parts.0, parts.1)
  }

  /** The reference written back in `name:tag` form. */
  function JoinRef(r: Ref): string {
    r.name + ":" + r.tag
  }

  /** Splitting a joined `name:tag` gives back the name and the whole tag, colons included. */
  lemma {:induction false} SplitAtFirstColonOfJoin(name: string, tag: string)
    requires ':' !in name
    ensures SplitAtFirstColon(name + ":" + tag) == Some((name, tag))
  {
    var s := name + ":" + tag;
    if name == [] {
      assert s[0] == ':' && s[1..] == tag;
    } else {
      assert s[0] == name[0] && s[1..] == name[1..] + ":" + tag;
      SplitAtFirstColonOfJoin(name[1..], tag);
      assert [name[0]] + name[1..] == name;
    }
  }

  /** Round trip: a reference whose name has no `:` survives joining and splitting. */
  lemma SplitRefJoinRef(r: Ref)
    requires ':' !in r.name
    ensures SplitRef(JoinRef(r)) == r
  {
    SplitAtFirstColonOfJoin(r.name, r.tag);
  }

  /** The exact two-level lookup `repos[name][tag]`; a missing key is ImageNotFound. */
  function Lookup(repos: Repositories, r: Ref): (res: Result<LayerId, ResolveError>)
    ensures res.Ok? <==> r.name in repos && r.tag in repos[r.name]
    ensures res.Ok? ==> res.value == repos[r.name][r.tag]
    ensures res.Err? ==> res.error == ImageNotFound(r.name, r.tag)
  {
    if r.name in repos && r.tag in repos[r.name] then Ok(repos[r.name][r.tag])
    else Err(ImageNotFound(r.name, r.tag))
  }

  /** The top layer id of the image named by `image`. */
  function Resolve(repos: Repositories, image: string): (res: Result<LayerId, ResolveError>)
    ensures var r := SplitRef(image);
      && (res.Ok? <==> r.name in repos && r.tag in repos[r.name])
      && (res.Ok? ==> res.value == repos[r.name][r.tag])
  {
    Lookup(repos, SplitRef(image))
  }

  /** `name` resolves exactly as `name:latest` does, success or failure. */
  lemma NoTagMeansLatest(repos: Repositories, image: string)
    requires ':' !in image
    ensures Resolve(repos, image) == Resolve(repos, image + ":" + DefaultTag)
  {
    SplitRefJoinRef(Ref(image, DefaultTag));
  }

  /** A reference with a `:` resolves to `repos[before][after]`, splitting at the first `:` only. */
  lemma ResolveSplitsAtFirstColon(repos: Repositories, name: string, tag: string)
    requires ':' !in name
    ensures Resolve(repos, name + ":" + tag).Ok? <==> name in repos && tag in repos[name]
    ensures Resolve(repos, name + ":" + tag).Ok? ==> Resolve(repos, name + ":" + tag).value == repos[name][tag]
    ensures Resolve(repos, name + ":" + tag).Err? ==> Resolve(repos, name + ":" + tag).error == ImageNotFound(name, tag)
  {
    SplitRefJoinRef(Ref(name, tag));
  }
}
