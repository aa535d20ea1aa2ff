/** The fixture driver's fast path: a known reference read from files instead of through git. */
module References {
  import opened RustText
  import opened Wrappers

  /** What reading a file answers. */
  datatype FileRead = Contents(text: string) | NotFound | Failed

  /** The files the fast path may look at, by path as it names them. */
  datatype World = World(read: string -> FileRead, isDirectory: string -> bool)

  /** A worktree's own git directory and the one its repository shares. */
  datatype Place = Place(administration: string, common: string)

  function Join(base: string, relative: string): string {
    if relative != "" && relative[0] == '/' then relative else base + "/" + relative
  }

  predicate StartsWith(text: string, prefix: string) {
    |prefix| <= |text| && text[..|prefix|] == prefix
  }

  predicate IsHexDigit(c: char) {
    '0' <= c <= '9' || 'a' <= c <= 'f' || 'A' <= c <= 'F'
  }

  predicate IsObjectName(text: string) {
    |text| in {40, 64} && forall c | c in text :: IsHexDigit(c)
  }

  /** Whether some `/`-separated part of a path is `..`. */
  predicate ClimbsUp(path: string) {
    match Find(path, '/')
    case None => path == ".."
    case Some(i) =>
      FindMeaning(path, '/');
      path[..i] == ".." || ClimbsUp(path[i + 1..])
  }

  // Where the files are.

  function PlaceOf(world: World, root: string): Option<Place> {
    var git := Join(root, ".git");
    var administration :=
      if world.isDirectory(git) then Some(git)
      else match world.read(git)
        case Contents(pointer) =>
          var target := Trim(pointer);
          if StartsWith(target, "gitdir: ") then Some(Join(root, target[8..])) else None
        case _ => None;
    match administration
    case None => None
    case Some(directory) =>
      match world.read(Join(directory, "commondir"))
      case Contents(relative) => Some(Place(directory, Join(directory, Trim(relative))))
      case NotFound => Some(Place(directory, directory))
      case Failed => None
  }

  // One reference.

  datatype Hop = Object(name: string) | Symbolic(target: string) | UseGit

  function ObjectHop(text: string): Hop {
    if IsObjectName(text) then Object(text) else UseGit
  }

  function LooseHop(text: string): Hop {
    var value := Trim(text);
    if !StartsWith(value, "ref: ") then ObjectHop(value)
    else
      var target := value[5..];
      if !StartsWith(target, "refs/") || ClimbsUp(target) then UseGit else Symbolic(target)
  }

  /** The line of packed references that names one reference: an object, a space, the name. */
  predicate IsPackedLine(line: string, name: string) {
    match Find(line, ' ')
    case None => false
    case Some(i) =>
      FindMeaning(line, ' ');
      line[i + 1..] == name
  }

  function PackedObject(line: string): string {
    match Find(line, ' ')
    case None => ""
    case Some(i) =>
      FindMeaning(line, ' ');
      line[..i]
  }

  /** The first packed line of a reference decides. */
  function PackedHop(lines: seq<string>, name: string): Hop
    decreases |lines|
  {
    if lines == [] then UseGit
    else if IsPackedLine(lines[0], name) then ObjectHop(PackedObject(lines[0]))
    else PackedHop(lines[1..], name)
  }

  function HopOf(world: World, place: Place, reference: string): Hop {
    var directory := if reference == "HEAD" then place.administration else place.common;
    match world.read(Join(directory, reference))
    case Contents(text) => LooseHop(text)
    case NotFound =>
      (match world.read(Join(place.common, "packed-refs"))
       case Contents(packed) => PackedHop(Lines(packed), reference)
       case _ => UseGit)
    case Failed => UseGit
  }

  method ReadPacked(packed: string, reference: string) returns (hop: Hop)
    ensures hop == PackedHop(Lines(packed), reference)
  {
    var lines := Lines(packed);
    for i := 0 to |lines|
      invariant PackedHop(lines[i..], reference) == PackedHop(lines, reference)
    {
      assert lines[i..][0] == lines[i] && lines[i..][1..] == lines[i + 1..];
      if IsPackedLine(lines[i], reference) {
        return ObjectHop(PackedObject(lines[i]));
      }
    }
    return UseGit;
  }

  /** The reference a number of symbolic hops leads to, when every hop on the way is symbolic. */
  function AfterHops(world: World, place: Place, reference: string, hops: nat): Option<string> {
    if hops == 0 then Some(reference)
    else match AfterHops(world, place, reference, hops - 1)
      case None => None
      case Some(last) => match HopOf(world, place, last) case Symbolic(target) => Some(target) case _ => None
  }

  /** A reference resolves to an object after a number of symbolic hops. */
  ghost predicate ResolvesAfter(world: World, place: Place, reference: string, hops: nat, oid: string) {
    && AfterHops(world, place, reference, hops).Some?
    && HopOf(world, place, AfterHops(world, place, reference, hops).value) == Object(oid)
  }

  /** At most seven symbolic hops lead from a reference to the object. */
  ghost predicate Resolves(world: World, place: Place, reference: string, oid: string) {
    exists hops | 0 <= hops <= 7 :: ResolvesAfter(world, place, reference, hops, oid)
  }

  /** Follow symbolic references from one to the object it names, at most eight files deep. */
  method ReadFixtureReference(world: World, root: string, start: string) returns (r: Option<string>)
    ensures match PlaceOf(world, root)
            case None => r.None?
            case Some(place) =>
              forall oid :: r == Some(oid) <==> Resolves(world, place, start, oid)
  {
    var placed := PlaceOf(world, root);
    if placed.None? {
      return None;
    }
    var place := placed.value;
    var reference := start;
    for i := 0 to 8
      invariant AfterHops(world, place, start, i) == Some(reference)
    {
      var directory := if reference == "HEAD" then place.administration else place.common;
      var hop := UseGit;
      match world.read(Join(directory, reference)) {
        case Contents(text) => hop := LooseHop(text);
        case NotFound =>
          match world.read(Join(place.common, "packed-refs")) {
            case Contents(packed) => hop := ReadPacked(packed, reference);
            case _ =>
          }
        case Failed =>
      }
      assert hop == HopOf(world, place, reference);
      match hop {
        case Object(name) =>
          assert ResolvesAfter(world, place, start, i, name);
          ResolutionIsUnique(world, place, start, i, name);
          return Some(name);
        case UseGit =>
          DeadEndResolvesNothing(world, place, start, i);
          return None;
        case Symbolic(target) => reference := target;
      }
    }
    LongChainIsNotFollowed(world, place, start);
    return None;
  }

  /** Every shorter prefix of a chain of hops is symbolic. */
  lemma {:induction false} PrefixIsSymbolic(world: World, place: Place, reference: string, hops: nat, shorter: nat)
    requires AfterHops(world, place, reference, hops).Some? && shorter < hops
    ensures AfterHops(world, place, reference, shorter).Some?
    ensures HopOf(world, place, AfterHops(world, place, reference, shorter).value).Symbolic?
  {
    hide HopOf;
    if shorter < hops - 1 {
      PrefixIsSymbolic(world, place, reference, hops - 1, shorter);
    }
  }

  /** A reference resolves to one object, after one number of hops. */
  lemma ResolutionIsUnique(world: World, place: Place, reference: string, hops: nat, oid: string)
    requires ResolvesAfter(world, place, reference, hops, oid)
    ensures forall n: nat, o :: ResolvesAfter(world, place, reference, n, o) ==> n == hops && o == oid
  {
    forall n: nat, o | ResolvesAfter(world, place, reference, n, o)
      ensures n == hops && o == oid
    {
      if n < hops {
        PrefixIsSymbolic(world, place, reference, hops, n);
      } else if hops < n {
        PrefixIsSymbolic(world, place, reference, n, hops);
      }
    }
  }

  lemma DeadEndResolvesNothing(world: World, place: Place, reference: string, hops: nat)
    requires AfterHops(world, place, reference, hops).Some?
    requires HopOf(world, place, AfterHops(world, place, reference, hops).value) == UseGit
    ensures forall n: nat, o :: !ResolvesAfter(world, place, reference, n, o)
  {
    hide HopOf;
    forall n: nat, o | ResolvesAfter(world, place, reference, n, o)
      ensures false
    {
      if n < hops {
        PrefixIsSymbolic(world, place, reference, hops, n);
      } else if hops < n {
        PrefixIsSymbolic(world, place, reference, n, hops);
      }
    }
  }

  lemma LongChainIsNotFollowed(world: World, place: Place, reference: string)
    requires AfterHops(world, place, reference, 8).Some?
    ensures forall n: nat, o | 0 <= n <= 7 :: !ResolvesAfter(world, place, reference, n, o)
  {
    forall n: nat, o | 0 <= n <= 7
      ensures !ResolvesAfter(world, place, reference, n, o)
    {
      PrefixIsSymbolic(world, place, reference, 8, n);
    }
  }

  /** A reference whose chain runs into a cycle, at its start or further along, resolves to nothing,
      so git is asked. */
  lemma CyclesResolveNothing(world: World, place: Place, reference: string, lead: nat, period: nat)
    requires period > 0 && AfterHops(world, place, reference, lead).Some?
    requires AfterHops(world, place, reference, lead + period) == AfterHops(world, place, reference, lead)
    ensures forall n: nat, o :: !ResolvesAfter(world, place, reference, n, o)
  {
    var entered := AfterHops(world, place, reference, lead).value;
    HopsAdd(world, place, reference, lead, period);
    forall n: nat, o | ResolvesAfter(world, place, reference, n, o)
      ensures false
    {
      ChainRepeats(world, place, entered, period, n);
      HopsAdd(world, place, reference, lead, n + 1);
      PrefixIsSymbolic(world, place, reference, lead + (n + 1), n);
    }
  }

  lemma {:induction false} ChainRepeats(world: World, place: Place, reference: string, period: nat, hops: nat)
    requires period > 0 && AfterHops(world, place, reference, period) == Some(reference)
    ensures AfterHops(world, place, reference, hops + 1).Some?
  {
    hide AfterHops;
    if hops + 1 <= period {
      if hops + 1 < period {
        PrefixIsSymbolic(world, place, reference, period, hops + 1);
      }
    } else {
      ChainRepeats(world, place, reference, period, hops - period);
      HopsAdd(world, place, reference, period, hops + 1 - period);
    }
  }

  /** A chain goes on from wherever it has come to. */
  lemma {:induction false} HopsAdd(world: World, place: Place, reference: string, lead: nat, hops: nat)
    requires AfterHops(world, place, reference, lead).Some?
    ensures AfterHops(world, place, reference, lead + hops)
            == AfterHops(world, place, AfterHops(world, place, reference, lead).value, hops)
  {
    hide HopOf;
    if hops > 0 {
      HopsAdd(world, place, reference, lead, hops - 1);
    }
  }

  /** The first packed line that names a reference. */
  predicate IsFirstPacked(lines: seq<string>, name: string, i: nat) {
    i < |lines| && IsPackedLine(lines[i], name) && forall j | 0 <= j < i :: !IsPackedLine(lines[j], name)
  }

  /** Packed references answer with the object of the first line that names the reference. */
  lemma {:induction false} PackedHopMeaning(lines: seq<string>, name: string, oid: string)
    ensures PackedHop(lines, name) == Object(oid) <==>
            IsObjectName(oid) && exists i: nat :: IsFirstPacked(lines, name, i) && PackedObject(lines[i]) == oid
    decreases |lines|
  {
    if lines != [] {
      var rest := lines[1..];
      if IsPackedLine(lines[0], name) {
        assert IsFirstPacked(lines, name, 0);
      } else {
        PackedHopMeaning(rest, name, oid);
        if i: nat :| IsFirstPacked(rest, name, i) && PackedObject(rest[i]) == oid {
          assert IsFirstPacked(lines, name, i + 1);
        }
        if i: nat :| IsFirstPacked(lines, name, i) && PackedObject(lines[i]) == oid {
          assert IsFirstPacked(rest, name, i - 1);
        }
      }
    }
  }

  // Which questions the fast path takes.

  datatype Answer = Resolved(oid: string) | AskGit

  /** The full name of a reference the fast path knows. */
  function KnownReference(name: string): Option<string> {
    if name == "HEAD" then Some("HEAD")
    else if name == "main" || name == "refs/heads/main" then Some("refs/heads/main")
    else if name == "integration" || name == "refs/heads/integration" then Some("refs/heads/integration")
    else None
  }

  /** Arguments that are not text are `None`. */
  method FixtureReferenceRead(world: World, root: string, arguments: seq<Option<string>>) returns (r: Answer)
    ensures forall oid :: r == Resolved(oid) <==>
              && |arguments| == 2 && arguments[0] == Some("rev-parse") && arguments[1].Some?
              && KnownReference(arguments[1].value).Some?
              && PlaceOf(world, root).Some?
              && Resolves(world, PlaceOf(world, root).value, KnownReference(arguments[1].value).value, oid)
  {
    if |arguments| != 2 || arguments[0] != Some("rev-parse") || arguments[1].None? {
      return AskGit;
    }
    var reference := KnownReference(arguments[1].value);
    if reference.None? {
      return AskGit;
    }
    var read := ReadFixtureReference(world, root, reference.value);
    match read
    case None => return AskGit;
    case Some(oid) => return Resolved(oid);
  }

  // What the files of a repository say.

  /** A `/`-separated part of a path that is `..` begins here. */
  predicate ParentPartAt(path: string, i: nat) {
    && i + 2 <= |path| && path[i] == '.' && path[i + 1] == '.'
    && (i == 0 || path[i - 1] == '/') && (i + 2 == |path| || path[i + 2] == '/')
  }

  ghost predicate HasParentPart(path: string) {
    exists i: nat :: ParentPartAt(path, i)
  }

  lemma FirstPart(path: string, k: nat)
    requires k <= |path| && '/' !in path[..k] && (k < |path| ==> path[k] == '/')
    ensures forall i: nat | i <= k :: ParentPartAt(path, i) <==> i == 0 && path[..k] == ".."
  {
    assert forall i | 0 <= i < k :: path[i] == path[..k][i];
    assert forall i | 0 <= i < k :: path[i] != '/';
    if ParentPartAt(path, 0) {
      assert k == 2;
      assert path[..k] == "..";
    }
    if path[..k] == ".." {
      assert path[..k][0] == '.' && path[..k][1] == '.';
    }
  }

  lemma LaterPart(path: string, k: nat, i: nat)
    requires k < |path| && path[k] == '/'
    ensures ParentPartAt(path, k + 1 + i) <==> ParentPartAt(path[k + 1..], i)
  {
  }

  lemma {:induction false} ClimbsUpExactly(path: string)
    ensures ClimbsUp(path) <==> HasParentPart(path)
    decreases |path|
  {
    hide ParentPartAt;
    FindMeaning(path, '/');
    if Find(path, '/').None? {
      assert path[..|path|] == path;
      FirstPart(path, |path|);
      PartsInside(path);
      assert ParentPartAt(path, 0) <==> path == "..";
    } else {
      var k := Find(path, '/').value;
      var rest := path[k + 1..];
      FirstPart(path, k);
      assert ParentPartAt(path, 0) <==> path[..k] == "..";
      ClimbsUpExactly(rest);
      if i: nat :| ParentPartAt(rest, i) {
        LaterPart(path, k, i);
      }
      if i: nat :| ParentPartAt(path, i) && i > k {
        LaterPart(path, k, i - k - 1);
      }
    }
  }

  lemma PartsInside(path: string)
    ensures forall i: nat :: ParentPartAt(path, i) ==> i < |path|
  {
  }

  /** A loose file names an object, or points to another reference inside `refs/`; anything else is
      left to git. */
  lemma LooseHopExactly(text: string, named: string)
    ensures LooseHop(text) == Object(named) <==> Trim(text) == named && IsObjectName(named)
    ensures LooseHop(text) == Symbolic(named) <==>
            Trim(text) == "ref: " + named && StartsWith(named, "refs/") && !HasParentPart(named)
  {
    var value := Trim(text);
    hide Trim, HasParentPart, ClimbsUp;
    if StartsWith(value, "ref: ") {
      ClimbsUpExactly(value[5..]);
      assert value == "ref: " + value[5..];
      assert value[..5][4] == ' ' && value[4] in value;
    }
    if value == "ref: " + named {
      assert StartsWith(value, "ref: ") && value[5..] == named;
    }
  }

  /** HEAD is looked up in the worktree's own git directory and every branch in the shared one, and a
      loose file goes before the packed references, which are in the shared one too. */
  lemma HopReadsFrom(world: World, place: Place, reference: string)
    requires reference == "HEAD" || StartsWith(reference, "refs/")
    ensures var file := (if reference == "HEAD" then place.administration else place.common) + "/" + reference;
            var packed := world.read(place.common + "/packed-refs");
            HopOf(world, place, reference) ==
            if world.read(file).Contents? then LooseHop(world.read(file).text)
            else if world.read(file).NotFound? && packed.Contents? then PackedHop(Lines(packed.text), reference)
            else UseGit
  {
    assert StartsWith(reference, "refs/") ==> reference[..5][0] == 'r';
    assert place.common + "/" + "packed-refs" == place.common + "/packed-refs";
  }

  /** In a main worktree both are its `.git`. */
  lemma MainWorktreePlace(world: World, root: string)
    requires world.isDirectory(root + "/.git") && world.read(root + "/.git/commondir") == NotFound
    ensures PlaceOf(world, root) == Some(Place(root + "/.git", root + "/.git"))
  {
    assert root + "/" + ".git" == root + "/.git" && (root + "/.git") + "/" + "commondir" == root + "/.git/commondir";
  }

  /** A linked worktree's `.git` file names its own, and that one's `commondir` file the shared one. */
  lemma LinkedWorktreePlace(world: World, root: string, directory: string, common: string)
    requires !world.isDirectory(root + "/.git")
    requires world.read(root + "/.git") == Contents("gitdir: " + directory + "\n")
    requires world.read(directory + "/commondir") == Contents(common + "\n")
    requires IsTrimmed(directory) && directory[0] == '/' && IsTrimmed(common)
    ensures PlaceOf(world, root) ==
            Some(Place(directory, if common[0] == '/' then common else directory + "/" + common))
  {
    assert root + "/" + ".git" == root + "/.git" && directory + "/" + "commondir" == directory + "/commondir";
    TrimLine("gitdir: " + directory);
    TrimLine(common);
    assert ("gitdir: " + directory)[8..] == directory;
  }

  lemma TrimLine(line: string)
    requires IsTrimmed(line)
    ensures Trim(line + "\n") == line
  {
    var ended := line + "\n";
    assert ended[0] == line[0] && TrimStart(ended) == ended;
    assert ended[|line|] == '\n' && ended[..|line|] == line;
    assert TrimEnd(ended) == TrimEnd(line) == line;
  }

  /** A linked worktree's HEAD leads to its own branch and that branch's object, whatever the main
      worktree has checked out. */
  lemma LinkedHeadResolves(world: World, place: Place, branch: string, oid: string)
    requires StartsWith(branch, "refs/") && !HasParentPart(branch) && IsTrimmed(branch) && IsObjectName(oid)
    requires world.read(place.administration + "/HEAD") == Contents("ref: " + branch + "\n")
    requires world.read(place.common + "/" + branch) == Contents(oid + "\n")
    ensures Resolves(world, place, "HEAD", oid)
  {
    HopReadsFrom(world, place, "HEAD");
    HopReadsFrom(world, place, branch);
    hide HopOf, LooseHop, HasParentPart, IsObjectName;
    assert ("ref: " + branch)[0] == 'r' && ("ref: " + branch)[|branch| + 4] == branch[|branch| - 1];
    TrimLine("ref: " + branch);
    ObjectNameIsTrimmed(oid);
    TrimLine(oid);
    LooseHopExactly("ref: " + branch + "\n", branch);
    LooseHopExactly(oid + "\n", oid);
    assert place.administration + "/" + "HEAD" == place.administration + "/HEAD";
    assert branch[..5][0] == 'r' && branch != "HEAD";
    ResolvesInOneHop(world, place, "HEAD", branch, oid);
  }

  lemma ResolvesInOneHop(world: World, place: Place, reference: string, target: string, oid: string)
    requires HopOf(world, place, reference) == Symbolic(target) && HopOf(world, place, target) == Object(oid)
    ensures Resolves(world, place, reference, oid)
  {
    hide HopOf;
    assert AfterHops(world, place, reference, 0) == Some(reference);
    assert AfterHops(world, place, reference, 1) == Some(target);
    assert ResolvesAfter(world, place, reference, 1, oid);
  }

  lemma ObjectNameIsTrimmed(oid: string)
    requires IsObjectName(oid)
    ensures IsTrimmed(oid)
  {
    assert oid[0] in oid && oid[|oid| - 1] in oid;
  }

  lemma ObjectNamesAreHex(text: string)
    ensures IsObjectName(text) <==>
            (|text| == 40 || |text| == 64) && forall i | 0 <= i < |text| :: text[i] in "0123456789abcdefABCDEF"
  {
    forall c
      ensures IsHexDigit(c) <==> c in "0123456789abcdefABCDEF"
    {
      HexDigits(c);
    }
    assert forall i | 0 <= i < |text| :: text[i] in text;
  }

  lemma HexDigits(c: char)
    ensures IsHexDigit(c) <==> c in "0123456789abcdefABCDEF"
  {
    var digits := "0123456789abcdefABCDEF";
    if '0' <= c <= '9' {
      assert digits[c as int - '0' as int] == c;
    } else if 'a' <= c <= 'f' {
      assert digits[10 + (c as int - 'a' as int)] == c;
    } else if 'A' <= c <= 'F' {
      assert digits[16 + (c as int - 'A' as int)] == c;
    }
  }

  /** The fast path takes HEAD, and each of the two fixture branches by its short or full name. */
  lemma KnownReferenceExactly(name: string, reference: string)
    ensures KnownReference(name) == Some(reference) <==>
            || name == reference == "HEAD"
            || (exists branch | branch in {"main", "integration"} ::
                  reference == "refs/heads/" + branch && (name == branch || name == reference))
  {
    assert "refs/heads/" + "main" == "refs/heads/main" && "refs/heads/" + "integration" == "refs/heads/integration";
    assert "main" in {"main", "integration"} && "integration" in {"main", "integration"};
  }

  /** A packed line is an object, the first space, and the rest is the name. */
  lemma PackedLineExactly(line: string, name: string, object': string)
    ensures IsPackedLine(line, name) && PackedObject(line) == object' <==>
            line == object' + " " + name && ' ' !in object'
  {
    FindMeaning(line, ' ');
    if line == object' + " " + name && ' ' !in object' {
      FindAfter(object', ' ', name);
      assert line[|object'| + 1..] == name && line[..|object'|] == object';
    }
    if Find(line, ' ').Some? {
      var i := Find(line, ' ').value;
      assert line == line[..i] + [line[i]] + line[i + 1..];
    }
  }

  /** There is no place to look in when `.git` is neither a directory nor a pointer to one, or when the
      shared directory cannot be read. */
  lemma PlaceIsUnknown(world: World, root: string, administration: string)
    requires !world.isDirectory(root + "/.git")
    ensures !world.read(root + "/.git").Contents? ==> PlaceOf(world, root) == None
    ensures world.read(root + "/.git").Contents? && !StartsWith(Trim(world.read(root + "/.git").text), "gitdir: ") ==>
              PlaceOf(world, root) == None
    ensures (&& administration != "" && administration[0] == '/' && IsTrimmed(administration)
             && world.read(root + "/.git") == Contents("gitdir: " + administration + "\n")
             && world.read(administration + "/commondir") == Failed) ==>
              PlaceOf(world, root) == None
  {
    assert root + "/" + ".git" == root + "/.git" && administration + "/" + "commondir" == administration + "/commondir";
    if IsTrimmed(administration) {
      TrimLine("gitdir: " + administration);
      assert ("gitdir: " + administration)[8..] == administration;
    }
  }
}
