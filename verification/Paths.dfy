/** Guest paths: normalisation, printing and ancestry (bubblebox, platform/linux/paths.rs). */
module Paths {
  import opened Bytes
  import opened PathOrder
  import opened Splitting
  import opened Wrappers

  const SLASH: Byte := 47
  const DOT: Byte := 46

  // Buffer sizes of the two C strings, each with room for the terminator.
  const PATH_MAX := 4096
  const PATH_COMPONENT_MAX := 256

  datatype PathError =
    | PathNotAbsolute
    | PathContainsParent
    | NoParentDirectory
    | Invalid

  datatype PrintError = BufferTooSmall

  // ----- the standard library's view of an absolute Unix path -----

  /** The segments between slashes, empty ones included. */
  function Split(path: seq<Byte>): seq<seq<Byte>> {
    Fields(SLASH, path)
  }

  predicate Ignored(segment: seq<Byte>) {
    segment == [] || segment == [DOT]
  }

  /** The components after the root: empty and `.` segments vanish, `..` stays. */
  function Names(segments: seq<seq<Byte>>): seq<seq<Byte>> {
    if segments == [] then []
    else (if Ignored(segments[0]) then [] else [segments[0]]) + Names(segments[1..])
  }

  predicate IsParent(component: seq<Byte>) {
    component == [DOT, DOT]
  }

  predicate ContainsParent(components: Path) {
    exists i :: 0 <= i < |components| && IsParent(components[i])
  }

  predicate IsAbsolute(path: seq<Byte>) {
    path != [] && path[0] == SLASH
  }

  /** Pushing a relative component onto a path buffer. */
  function Push(buffer: seq<Byte>, component: seq<Byte>): seq<Byte> {
    if buffer != [] && buffer[|buffer| - 1] == SLASH then buffer + component
    else buffer + [SLASH] + component
  }

  /** The path buffer after pushing every component onto `/`. */
  function Render(components: Path): (path: seq<Byte>)
    ensures |path| > 0 && path[0] == SLASH
  {
    if components == [] then [SLASH]
    else Push(Render(components[..|components| - 1]), components[|components| - 1])
  }

  predicate IsCString(bytes: seq<Byte>, capacity: nat) {
    |bytes| < capacity && 0 !in bytes
  }

  // ----- guest paths -----

  datatype Guest = Guest(parentDir: seq<Byte>, fileName: seq<Byte>) {
    /** Components of the parent directory, followed by the file name. */
    function Components(): Path {
      Names(Split(parentDir)) + [fileName]
    }
  }

  /** A guest path as it is kept: two C strings. */
  type GuestPath = guest: Guest | 0 !in guest.parentDir && 0 !in guest.fileName
    witness Guest([SLASH], [DOT, DOT, DOT])

  predicate ValidName(name: Name) {
    !Ignored(name) && !IsParent(name) && SLASH !in name
  }

  predicate ValidComponents(components: Path) {
    forall i :: 0 <= i < |components| ==> ValidName(components[i])
  }

  function FromComponents(components: Path): Guest
    requires components != []
  {
    Guest(Render(components[..|components| - 1]), components[|components| - 1])
  }

  /** What the constructor computes, as a function of the components of its input. */
  function Normalise(path: seq<Byte>): Result<Guest, PathError> {
    var components := Names(Split(path));
    if !IsAbsolute(path) then Err(PathNotAbsolute)
    else if ContainsParent(components) then Err(PathContainsParent)
    else if components == [] then Err(NoParentDirectory)
    else Bounded(FromComponents(components))
  }

  /** Both C strings must be free of zero bytes and fit their buffers. */
  function Bounded(guest: Guest): Result<Guest, PathError> {
    if IsCString(guest.parentDir, PATH_MAX) && IsCString(guest.fileName, PATH_COMPONENT_MAX) then Ok(guest)
    else Err(Invalid)
  }

  /** The constructor: pushes components onto `/`, then splits off parent and file name. */
  method New(path: seq<Byte>) returns (r: Result<Guest, PathError>)
    ensures r == Normalise(path)
  {
    if !IsAbsolute(path) {
      return Err(PathNotAbsolute);
    }
    var components := Names(Split(path));
    var normalized: seq<Byte> := [SLASH];
    var i := 0;
    while i < |components|
      invariant 0 <= i <= |components|
      invariant forall j :: 0 <= j < i ==> !IsParent(components[j])
      invariant normalized == Render(components[..i])
    {
      if IsParent(components[i]) {
        return Err(PathContainsParent);
      }
      RenderStep(components, i);
      normalized := Push(normalized, components[i]);
      i := i + 1;
    }
    assert components[..i] == components && !ContainsParent(components);
    NamesAreProper(path);
    SplitRender(components);
    // `parent` and `file_name` of the buffer see its components again
    var pushed := Names(Split(normalized));
    assert pushed == components;
    r := TakeApart(pushed);
  }

  /** `parent` and `file_name` of the normalised buffer, each copied into a bounded C string. */
  method TakeApart(pushed: Path) returns (r: Result<Guest, PathError>)
    ensures pushed == [] ==> r == Err(NoParentDirectory)
    ensures pushed != [] ==> r == Bounded(FromComponents(pushed))
  {
    if pushed == [] {
      return Err(NoParentDirectory);
    }
    var parentDir := Render(pushed[..|pushed| - 1]);
    if !IsCString(parentDir, PATH_MAX) {
      return Err(Invalid);
    }
    var fileName := pushed[|pushed| - 1];
    if !IsCString(fileName, PATH_COMPONENT_MAX) {
      return Err(Invalid);
    }
    return Ok(Guest(parentDir, fileName));
  }

  lemma RenderStep(components: Path, i: nat)
    requires i < |components|
    ensures Render(components[..i + 1]) == Push(Render(components[..i]), components[i])
  {
    assert components[..i + 1][..i] == components[..i];
  }

  lemma {:induction false} NamesFilter(segments: seq<seq<Byte>>)
    ensures forall name :: name in Names(segments) ==> !Ignored(name) && name in segments
  {
    if segments != [] {
      NamesFilter(segments[1..]);
    }
  }

  predicate ProperNames(components: Path) {
    forall i :: 0 <= i < |components| ==> !Ignored(components[i]) && SLASH !in components[i]
  }

  lemma NamesAreProper(path: seq<Byte>)
    ensures ProperNames(Names(Split(path)))
  {
    FieldsAvoidSeparator(SLASH, path);
    NamesFilter(Split(path));
    forall i | 0 <= i < |Names(Split(path))|
      ensures !Ignored(Names(Split(path))[i]) && SLASH !in Names(Split(path))[i]
    {
      assert Names(Split(path))[i] in Names(Split(path));
    }
  }

  lemma {:induction false} ComponentsConcat(a: seq<seq<Byte>>, b: seq<seq<Byte>>)
    ensures Names(a + b) == Names(a) + Names(b)
  {
    if a == [] {
      assert a + b == b;
      assert Names(a) + Names(b) == Names(b);
    } else {
      var head := if Ignored(a[0]) then [] else [a[0]];
      ComponentsConcat(a[1..], b);
      calc {
        Names(a + b);
        { assert (a + b)[0] == a[0] && (a + b)[1..] == a[1..] + b; }
        head + (Names(a[1..]) + Names(b));
        (head + Names(a[1..])) + Names(b);
        Names(a) + Names(b);
      }
    }
  }

  /** The rendered path of valid components has exactly those components. */
  lemma {:induction false} SplitRender(components: Path)
    requires ProperNames(components)
    ensures Names(Split(Render(components))) == components
  {
    RootHasNoNames();
    if components != [] {
      var front, last := components[..|components| - 1], components[|components| - 1];
      SplitRender(front);
      RenderLast(components);
      AppendName(if front == [] then [] else Render(front), last);
      assert front + [last] == components;
    }
  }

  /** Pushing onto `/` reuses its slash, any other buffer gets one. */
  lemma RenderLast(components: Path)
    requires components != [] && ProperNames(components)
    ensures
      var front, last := components[..|components| - 1], components[|components| - 1];
      Render(components) == (if front == [] then [] else Render(front)) + [SLASH] + last
  {
    RenderEnd(components[..|components| - 1]);
  }

  lemma RootHasNoNames()
    ensures Names(Split([])) == [] && Names(Split([SLASH])) == []
  {
    var none: seq<Byte> := [];
    assert Split(none) == [none];
    FieldsCons(SLASH, SLASH, none);
    assert [SLASH] + none == [SLASH] && [none] + [none] == [none, none];
    assert Names([none]) == [];
    assert [none, none][1..] == [none];
  }

  lemma AppendName(before: seq<Byte>, name: Name)
    requires !Ignored(name) && SLASH !in name
    ensures Names(Split(before + [SLASH] + name)) == Names(Split(before)) + [name]
  {
    FieldsConcat(SLASH, before, name);
    FieldsSingle(SLASH, name);
    ComponentsConcat(Split(before), [name]);
    assert Names([name]) == [name] by { assert [name][1..] == []; }
  }

  /** Only the root itself ends in a slash. */
  lemma RenderEnd(components: Path)
    requires ProperNames(components)
    ensures Render(components)[|Render(components)| - 1] == SLASH <==> components == []
  {
    if components != [] {
      var last := components[|components| - 1];
      assert Render(components)[|Render(components)| - 1] == last[|last| - 1];
    }
  }

  /** A guest path some input normalises to. */
  ghost predicate Reachable(guest: Guest) {
    exists path :: Normalise(path) == Ok(guest)
  }

  /** Accepted paths keep exactly the components of the input, and each is a proper name. */
  lemma NormaliseComponents(path: seq<Byte>)
    requires Normalise(path).Ok?
    ensures Normalise(path).value.Components() == Names(Split(path))
    ensures ValidComponents(Names(Split(path)))
  {
    var components := Names(Split(path));
    var front, last := components[..|components| - 1], components[|components| - 1];
    NamesAreProper(path);
    SplitRender(front);
    assert Normalise(path).value == Guest(Render(front), last);
    assert front + [last] == components;
  }

  /** Which input gives which answer, told by the segments between its slashes. */
  lemma NormaliseExactly(path: seq<Byte>)
    ensures
      var segments := Fields(47, path);
      var absolute := |path| > 0 && path[0] == 47;
      var climbs := [46, 46] in segments;
      var empty := forall segment :: segment in segments ==> segment == [] || segment == [46];
      && (Normalise(path) == Err(PathNotAbsolute) <==> !absolute)
      && (Normalise(path) == Err(PathContainsParent) <==> absolute && climbs)
      && (Normalise(path) == Err(NoParentDirectory) <==> absolute && !climbs && empty)
      && (Normalise(path) == Err(Invalid) <==> absolute && !climbs && !empty && !Storable(Names(segments)))
  {
    var names := Names(Split(path));
    NamesTell(Split(path));
    NamesAreProper(path);
    if names != [] {
      StoredExactly(names);
    }
  }

  lemma NamesTell(segments: seq<seq<Byte>>)
    ensures ContainsParent(Names(segments)) <==> [46, 46] in segments
    ensures Names(segments) == [] <==> forall segment :: segment in segments ==> segment == [] || segment == [46]
  {
    NamesFilter(segments);
    NamesKept(segments);
    assert ContainsParent(Names(segments)) <==> [46, 46] in Names(segments);
    if Names(segments) != [] {
      assert Names(segments)[0] in Names(segments);
    }
  }

  lemma StoredExactly(names: Path)
    requires names != [] && ProperNames(names)
    ensures Bounded(FromComponents(names)) == if Storable(names) then Ok(FromComponents(names)) else Err(Invalid)
  {
    var front, last := names[..|names| - 1], names[|names| - 1];
    RenderZero(front);
    RenderSize(front);
    assert forall i :: 0 <= i < |front| ==> front[i] == names[i];
    assert (forall i :: 0 <= i < |names| ==> 0 !in names[i]) <==>
      0 !in last && forall i :: 0 <= i < |front| ==> 0 !in front[i];
  }

  /** Room for a path: no zero byte, at most 255 bytes in the last name, and at most 4095 in the names before it. */
  ghost predicate Storable(names: Path) {
    && (forall i :: 0 <= i < |names| ==> 0 !in names[i])
    && names != [] && |names[|names| - 1]| <= 255 && Size(names[..|names| - 1]) <= 4095
  }

  /** The names with a slash before each of them. */
  ghost function Size(names: Path): nat {
    if names == [] then 0 else Size(names[..|names| - 1]) + 1 + |names[|names| - 1]|
  }

  lemma {:induction false} RenderSize(names: Path)
    requires ProperNames(names)
    ensures |Render(names)| == if names == [] then 1 else Size(names)
  {
    if names != [] {
      RenderSize(names[..|names| - 1]);
      RenderLast(names);
    }
  }

  lemma {:induction false} RenderZero(names: Path)
    ensures 0 in Render(names) <==> exists i :: 0 <= i < |names| && 0 in names[i]
  {
    if names != [] {
      RenderZero(names[..|names| - 1]);
    }
  }

  lemma {:induction false} NamesKept(segments: seq<seq<Byte>>)
    ensures forall segment :: segment in segments && segment != [] && segment != [46] ==> segment in Names(segments)
  {
    if segments != [] {
      NamesKept(segments[1..]);
    }
  }

  /** Names keep their order: what remains of two runs of segments is what remains of each, one after the other. */
  lemma NamesInOrder(before: seq<seq<Byte>>, segment: seq<Byte>, after: seq<seq<Byte>>)
    ensures Names(before + [segment] + after) ==
      Names(before) + (if segment == [] || segment == [46] then [] else [segment]) + Names(after)
  {
    ComponentsConcat(before + [segment], after);
    ComponentsConcat(before, [segment]);
    assert [segment][1..] == [];
    assert Names([]) == [];
  }

  /** On reachable paths the derived equality is equality of components. */
  lemma EqualityIsComponentEquality(a: Guest, b: Guest)
    requires Reachable(a) && Reachable(b)
    ensures a == b <==> a.Components() == b.Components()
    ensures a == b <==> ComparePaths(a.Components(), b.Components()) == Equal
  {
    ReachableIsCanonical(a);
    ReachableIsCanonical(b);
    PathsTotal();
  }

  lemma ReachableIsCanonical(guest: Guest)
    requires Reachable(guest)
    ensures ValidComponents(guest.Components()) && guest == FromComponents(guest.Components())
    ensures IsCString(guest.parentDir, PATH_MAX) && IsCString(guest.fileName, PATH_COMPONENT_MAX)
  {
    var path :| Normalise(path) == Ok(guest);
    NormaliseComponents(path);
  }

  // ----- printing -----

  /** The text a guest path prints to; a parent of `/` gives a doubled slash. */
  function Print(guest: Guest): seq<Byte> {
    guest.parentDir + [SLASH] + guest.fileName
  }

  /** Printing into an `N`-byte buffer, terminator included. */
  method WithCStr(guest: Guest, N: nat) returns (r: Result<seq<Byte>, PrintError>)
    requires 0 !in guest.parentDir && 0 !in guest.fileName
    ensures r.Ok? <==> |guest.parentDir| + 1 + |guest.fileName| < N
    ensures r.Ok? ==> r.value == guest.parentDir + [47] + guest.fileName + [0] && r.value == Print(guest) + [0]
  {
    var buffer := new Byte[N](_ => 0);
    var parentLength, fileLength := |guest.parentDir|, |guest.fileName|;
    if !(parentLength + fileLength + 1 < buffer.Length) {
      return Err(BufferTooSmall);
    }
    Copy(buffer, 0, guest.parentDir);
    buffer[parentLength] := SLASH;
    assert buffer[..parentLength + 1] == guest.parentDir + [SLASH];
    Copy(buffer, parentLength + 1, guest.fileName);
    assert buffer[..parentLength + 1 + fileLength] == guest.parentDir + [SLASH] + guest.fileName;
    assert buffer[parentLength + fileLength + 1] == 0;
    return Ok(buffer[..parentLength + fileLength + 2]);
  }

  lemma {:induction false} RenderLength(components: Path)
    requires components != [] && ProperNames(components)
    requires forall i :: 0 <= i < |components| ==> |components[i]| == 200
    ensures |Render(components)| == 201 * |components|
  {
    var front := components[..|components| - 1];
    RenderEnd(front);
    if front != [] {
      RenderLength(front);
    }
  }

  /** Not every accepted path prints into `PATH_MAX` bytes: 21 names of 200 bytes are accepted, but need 4221. */
  lemma AcceptedButUnprintable() returns (path: seq<Byte>)
    ensures Normalise(path).Ok? && |Print(Normalise(path).value)| >= PATH_MAX
  {
    var name: Name := seq(200, _ => 97);
    var components: Path := seq(21, _ => name);
    assert ProperNames(components) && ValidName(name);
    path := Render(components);
    SplitRender(components);
    var front := components[..20];
    RenderLength(front);
    RenderAvoidsZero(front);
    assert components[|components| - 1] == name;
  }

  lemma {:induction false} RenderAvoidsZero(components: Path)
    requires forall i :: 0 <= i < |components| ==> 0 !in components[i]
    ensures 0 !in Render(components)
  {
    if components != [] {
      RenderAvoidsZero(components[..|components| - 1]);
    }
  }

  /** `copy_from_slice` into `buffer[at..at + |bytes|]`. */
  method Copy(buffer: array<Byte>, at: nat, bytes: seq<Byte>)
    requires at + |bytes| <= buffer.Length
    modifies buffer
    ensures buffer[..at + |bytes|] == old(buffer[..at]) + bytes
    ensures forall i :: at + |bytes| <= i < buffer.Length ==> buffer[i] == old(buffer[i])
  {
    forall i | 0 <= i < |bytes| {
      buffer[at + i] := bytes[i];
    }
  }

  /** Parsing what was printed gives the same path back. */
  lemma PrintParseRoundTrip(guest: Guest)
    requires Reachable(guest)
    ensures Normalise(Print(guest)) == Ok(guest)
  {
    ReachableIsCanonical(guest);
    var components := guest.Components();
    assert ValidName(components[|components| - 1]);
    AppendName(guest.parentDir, guest.fileName);
    assert Names(Split(Print(guest))) == components;
    assert IsAbsolute(Print(guest));
  }

  /** Normalisation is idempotent on the normalised text, and two inputs with equal components agree. */
  lemma NormaliseIdempotent(path: seq<Byte>)
    requires Normalise(path).Ok?
    ensures Normalise(Render(Names(Split(path)))) == Normalise(path)
    ensures forall other :: IsAbsolute(other) && Names(Split(other)) == Names(Split(path)) ==>
      Normalise(other) == Normalise(path)
  {
    NormaliseComponents(path);
    SplitRender(Names(Split(path)));
  }

  // ----- ancestry -----

  /** The iterator loop: stops at the first missing component on either side. */
  method StartsWith(left: Guest, right: Guest) returns (r: bool)
    ensures r <==> right.Components() <= left.Components()
  {
    var leftComponents, rightComponents := left.Components(), right.Components();
    var i, j := 0, 0;
    while i < |leftComponents| && j < |rightComponents|
      invariant i == j <= |leftComponents| && j <= |rightComponents|
      invariant leftComponents[..i] == rightComponents[..j]
    {
      var leftNext, rightNext := leftComponents[i], rightComponents[j];
      i, j := i + 1, j + 1;
      if leftNext != rightNext {
        return false;
      }
    }
    return j == |rightComponents|;
  }
}
