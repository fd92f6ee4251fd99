/** `Path::components` on Unix, `PathBuf::push`, and `sanitize_tftp_path` on top of them. */
module TftpPath {
  import opened Bytes
  import opened Words

  const SLASH: byte := 47
  const DOT: Text := Ascii(".")
  const DOT_DOT: Text := Ascii("..")

  datatype Component = Normal(name: Text) | CurDir | ParentDir | RootDir

  /** The components behind the first one: empty pieces and inner dots vanish. */
  function Body(pieces: seq<Text>): seq<Component> {
    if pieces == [] then []
    else if pieces[0] == [] || pieces[0] == DOT then Body(pieces[1..])
    else [if pieces[0] == DOT_DOT then ParentDir else Normal(pieces[0])] + Body(pieces[1..])
  }

  function Pieces(path: Text): (pieces: seq<Text>)
    ensures |pieces| > 0 && forall p :: p in pieces ==> SLASH !in p
  {
    Split(path, SLASH)
  }

  /** A leading slash is `RootDir`; a leading dot piece of a relative path is the only `CurDir`. */
  function Front(pieces: seq<Text>): seq<Component>
    requires |pieces| > 0
  {
    if IsAbsolute(pieces) then [RootDir] else if pieces[0] == DOT then [CurDir] else []
  }

  predicate IsAbsolute(pieces: seq<Text>) {
    |pieces| >= 2 && pieces[0] == []
  }

  /** `Path::new(path).components()` */
  function Components(path: Text): seq<Component> {
    Front(Pieces(path)) + Body(Pieces(path))
  }

  /** `PathBuf::push` of a relative name. */
  function Push(path: Text, name: Text): Text {
    if path != [] && path[|path| - 1] != SLASH then path + [SLASH] + name else path + name
  }

  function Under(root: Text, segments: seq<Text>): Text
    decreases |segments|
  {
    if segments == [] then root else Under(Push(root, segments[0]), segments[1..])
  }

  /** The names that a request may push, `None` when a component is refused. */
  function Segments(components: seq<Component>): Option<seq<Text>> {
    if components == [] then Some([])
    else
      match (components[0], Segments(components[1..]))
      case (Normal(name), Some(rest)) => Some([name] + rest)
      case (CurDir, Some(rest)) => Some(rest)
      case _ => None
  }

  function SanitizePath(root: Text, requested: Text): Option<Text> {
    match Segments(Components(requested))
    case None => None
    case Some(segments) => Some(Under(root, segments))
  }

  /** `SanitizePath` with the components still to come and the path pushed so far. */
  function PushAll(path: Text, components: seq<Component>): Option<Text> {
    match Segments(components)
    case None => None
    case Some(segments) => Some(Under(path, segments))
  }

  lemma PushFirst(path: Text, components: seq<Component>)
    requires components != []
    ensures PushAll(path, components) ==
      match components[0]
      case Normal(name) => PushAll(Push(path, name), components[1..])
      case CurDir => PushAll(path, components[1..])
      case _ => None
  {
    if components[0].Normal? && Segments(components[1..]).Some? {
      var rest := Segments(components[1..]).value;
      assert ([components[0].name] + rest)[1..] == rest;
    }
  }

  method SanitizeTftpPath(root: Text, requested: Text) returns (r: Option<Text>)
    ensures r == SanitizePath(root, requested)
  {
    var path := root;
    var components := Components(requested);
    for i := 0 to |components|
      invariant PushAll(root, components) == PushAll(path, components[i..])
    {
      PushFirst(path, components[i..]);
      match components[i] {
        case Normal(segment) => path := Push(path, segment);
        case CurDir =>
        case _ => return None;
      }
    }
    r := Some(path);
  }

  // ---------------------------------------------------------------------------
  // Containment
  // ---------------------------------------------------------------------------

  /** A name that stays inside its directory. */
  predicate IsNormal(name: Text) {
    name != [] && name != DOT && name != DOT_DOT && SLASH !in name
  }

  lemma {:induction false} BodySegments(pieces: seq<Text>)
    requires forall p :: p in pieces ==> SLASH !in p
    ensures Segments(Body(pieces)).Some? <==> DOT_DOT !in pieces
    ensures Segments(Body(pieces)).Some? ==> forall s :: s in Segments(Body(pieces)).value ==> IsNormal(s)
  {
    if pieces != [] {
      BodySegments(pieces[1..]);
      var rest := Body(pieces[1..]);
      assert Body(pieces) != rest ==> Body(pieces)[1..] == rest;
      assert pieces == [pieces[0]] + pieces[1..];
      assert DOT != DOT_DOT;
    }
  }

  lemma FrontSegments(pieces: seq<Text>)
    requires |pieces| > 0
    ensures Segments(Front(pieces) + Body(pieces))
         == if IsAbsolute(pieces) then None else Segments(Body(pieces))
  {
    assert (Front(pieces) + Body(pieces))[|Front(pieces)|..] == Body(pieces);
  }

  /** The root is a literal prefix of every path built under it. */
  lemma {:induction false} UnderExtends(root: Text, segments: seq<Text>)
    ensures root <= Under(root, segments)
    decreases |segments|
  {
    if segments != [] { UnderExtends(Push(root, segments[0]), segments[1..]); }
  }

  /** A directory, ready for a name: with a slash at its end, unless it is empty. */
  function AsPrefix(root: Text): Text {
    if root == [] || root[|root| - 1] == 47 then root else root + [47]
  }

  lemma PushNormal(root: Text, name: Text)
    requires IsNormal(name)
    ensures Push(root, name) == AsPrefix(root) + name && AsPrefix(Push(root, name)) == AsPrefix(root) + name + [47]
  {
    assert name[|name| - 1] in name;
  }

  /** A path built under a root, written out: the root and the names, with slashes between them. */
  lemma {:induction false} UnderJoins(root: Text, segments: seq<Text>)
    requires segments != [] && forall s :: s in segments ==> IsNormal(s)
    ensures Under(root, segments) == AsPrefix(root) + Join(segments, 47)
    decreases |segments|
  {
    var name, rest := segments[0], segments[1..];
    assert name in segments;
    PushNormal(root, name);
    if rest == [] {
      assert Under(Push(root, name), rest) == Push(root, name);
    } else {
      UnderJoins(Push(root, name), rest);
      assert AsPrefix(root) + name + [47] + Join(rest, 47) == AsPrefix(root) + (name + [47] + Join(rest, 47));
    }
  }

  lemma DotTexts()
    ensures DOT == [46] && DOT_DOT == [46, 46]
  {
  }

  /** The pieces of a request that name something. */
  function Names(pieces: seq<Text>): seq<Text> {
    if pieces == [] then []
    else (if pieces[0] == [] || pieces[0] == [46] then [] else [pieces[0]]) + Names(pieces[1..])
  }

  lemma {:induction false} BodyNames(pieces: seq<Text>)
    requires DOT_DOT !in pieces
    ensures Segments(Body(pieces)) == Some(Names(pieces))
  {
    if pieces != [] {
      assert pieces == [pieces[0]] + pieces[1..] && pieces[0] in pieces;
      DotTexts();
      BodyNames(pieces[1..]);
      if pieces[0] != [] && pieces[0] != DOT {
        assert Body(pieces) == [Normal(pieces[0])] + Body(pieces[1..]);
        assert Body(pieces)[1..] == Body(pieces[1..]);
      } else {
        assert Names(pieces) == [] + Names(pieces[1..]) == Names(pieces[1..]);
      }
    }
  }

  /** A request is accepted exactly when it is relative and has no parent step; the path is then the
      root followed by names that are neither empty, nor a dot or double dot, nor hold a slash. */
  lemma SanitizeContains(root: Text, requested: Text)
    ensures SanitizePath(root, requested).Some?
      <==> !IsAbsolute(Pieces(requested)) && DOT_DOT !in Pieces(requested)
    ensures SanitizePath(root, requested).Some? ==>
      exists names ::
        && SanitizePath(root, requested) == Some(Under(root, names))
        && (forall s :: s in names ==> IsNormal(s))
        && root <= Under(root, names)
  {
    FrontSegments(Pieces(requested));
    BodySegments(Pieces(requested));
    if SanitizePath(root, requested).Some? {
      var names := Segments(Components(requested)).value;
      UnderExtends(root, names);
      assert SanitizePath(root, requested) == Some(Under(root, names));
    }
  }

  /** The path of an accepted request: the root and the request's naming pieces, all of them, in order. */
  lemma SanitizeExact(root: Text, requested: Text)
    requires SanitizePath(root, requested).Some?
    ensures SanitizePath(root, requested) == Some(Under(root, Names(Split(requested, 47))))
  {
    SanitizeContains(root, requested);
    FrontSegments(Pieces(requested));
    BodyNames(Pieces(requested));
  }

  lemma {:induction false} BodyOfNormal(segments: seq<Text>)
    requires forall s :: s in segments ==> IsNormal(s)
    ensures Segments(Body(segments)) == Some(segments)
  {
    if segments != [] {
      assert segments == [segments[0]] + segments[1..] && IsNormal(segments[0]);
      BodyOfNormal(segments[1..]);
      assert Body(segments)[1..] == Body(segments[1..]);
    }
  }

  /** A path written as normal names with slashes between them keeps exactly those names. */
  lemma SanitizeNormal(root: Text, segments: seq<Text>)
    requires segments != [] && forall s :: s in segments ==> IsNormal(s)
    ensures SanitizePath(root, Join(segments, SLASH)) == Some(Under(root, segments))
  {
    SplitJoin(segments, SLASH);
    assert IsNormal(segments[0]);
    FrontSegments(segments);
    BodyOfNormal(segments);
  }

  // ---------------------------------------------------------------------------
  // Dot segments
  // ---------------------------------------------------------------------------

  function WithoutDots(pieces: seq<Text>): (r: seq<Text>)
    ensures forall p :: p in r ==> p in pieces
  {
    if pieces == [] then []
    else if pieces[0] == DOT then WithoutDots(pieces[1..])
    else [pieces[0]] + WithoutDots(pieces[1..])
  }

  /** The request with every dot piece taken out of its text. */
  function DropDots(requested: Text): Text {
    Join(WithoutDots(Pieces(requested)), SLASH)
  }

  lemma {:induction false} BodyWithoutDots(pieces: seq<Text>)
    ensures Body(WithoutDots(pieces)) == Body(pieces)
    ensures DOT_DOT in WithoutDots(pieces) <==> DOT_DOT in pieces
  {
    if pieces != [] {
      BodyWithoutDots(pieces[1..]);
      assert pieces == [pieces[0]] + pieces[1..];
      assert DOT != DOT_DOT;
      if pieces[0] != DOT {
        assert WithoutDots(pieces)[1..] == WithoutDots(pieces[1..]);
      }
    }
  }

  /** Dropping dots leaves the sanitized path alone, except that it may make a relative request
      absolute (`.//a` becomes `/a`) or an absolute one relative (`/.` becomes the empty path); those
      requests, where no parent step refuses both, are exactly the ones whose answer changes. */
  lemma DropDotsExact(root: Text, requested: Text)
    ensures SanitizePath(root, DropDots(requested)) == SanitizePath(root, requested)
      <==> IsAbsolute(WithoutDots(Pieces(requested))) == IsAbsolute(Pieces(requested))
           || DOT_DOT in Pieces(requested)
  {
    var pieces := Pieces(requested);
    var kept := WithoutDots(pieces);
    BodyWithoutDots(pieces);
    FrontSegments(pieces);
    BodySegments(pieces);
    if kept == [] {
      assert Split([], SLASH) == [[]];
      assert Body([[]]) == [];
      FrontSegments([[]]);
    } else {
      SplitJoin(kept, SLASH);
      FrontSegments(kept);
    }
  }

  /** Such requests: `.//name` is accepted, and refused once its dot is gone. */
  lemma DroppingADotMatters(root: Text, name: Text)
    requires IsNormal(name)
    ensures var requested := DOT + [SLASH] + ([SLASH] + name);
      && DropDots(requested) == [SLASH] + name
      && SanitizePath(root, requested).Some? && SanitizePath(root, DropDots(requested)).None?
  {
    var dotted, plain: seq<Text> := [DOT, [], name], [[], name];
    DottedPieces(name);
    SplitJoin(dotted, SLASH);
    SplitJoin(plain, SLASH);
    SanitizeContains(root, Join(dotted, SLASH));
    SanitizeContains(root, Join(plain, SLASH));
  }

  /** ... and the other way round: `/.` is refused, and names the root itself once its dot is gone. */
  lemma DroppingTheLastDotMatters(root: Text)
    ensures SanitizePath(root, [SLASH] + DOT).None?
    ensures SanitizePath(root, DropDots([SLASH] + DOT)) == Some(root)
  {
    var pieces: seq<Text> := [[], DOT];
    assert pieces[1..] == [DOT] && Join(pieces, SLASH) == [SLASH] + DOT;
    SplitJoin(pieces, SLASH);
    SanitizeContains(root, [SLASH] + DOT);
    assert [DOT][1..] == [] && WithoutDots([DOT]) == [];
    assert WithoutDots(pieces) == [[]];
    EmptyRequest(root);
  }

  lemma EmptyRequest(root: Text)
    ensures Join([[]], SLASH) == [] && SanitizePath(root, []) == Some(root)
  {
    SplitJoin([[]], SLASH);
    var pieces: seq<Text> := [[]];
    assert pieces[1..] == [] && Body(pieces) == [];
    assert Components([]) == [];
    assert Segments([]) == Some([]);
  }

  lemma DottedPieces(name: Text)
    requires IsNormal(name)
    ensures Join([[], name], SLASH) == [SLASH] + name
    ensures Join([DOT, [], name], SLASH) == DOT + [SLASH] + ([SLASH] + name)
    ensures WithoutDots([DOT, [], name]) == [[], name]
  {
    assert [DOT, [], name][1..] == [[], name] && [[], name][1..] == [name];
    assert WithoutDots([name]) == [name];
    assert WithoutDots([[], name]) == [[], name];
  }

  /** The everyday case: a relative request without empty pieces never changes. */
  lemma DropDotsRelative(root: Text, requested: Text)
    requires [] !in Pieces(requested)
    ensures SanitizePath(root, DropDots(requested)) == SanitizePath(root, requested)
  {
    DropDotsExact(root, requested);
  }
}
