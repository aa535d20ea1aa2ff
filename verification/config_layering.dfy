/** Initialization and two-level lookup over the configuration files of a repository's worktrees. */
module ConfigLayering {
  import opened RustText
  import opened Wrappers
  import opened Config
  import opened ConfigLines
  import opened ConfigRoundTrip

  /** One worktree's configuration file; a worktree that has none is absent from the map. */
  datatype File = Text(contents: string) | Unreadable

  datatype Lookup = Own(root: string) | OwnThenMain(root: string, main: string)

  datatype Enrollment = Enrolled(config: BerthConfig) | Unconfigured(expectedRoot: string)

  datatype InitializationState = Created | Existing

  function ReadFile(files: map<string, File>, root: string): Outcome<Option<BerthConfig>> {
    if root !in files then Ok(None)
    else match files[root]
      case Unreadable => Err(Io)
      case Text(contents) =>
        match Parsed(contents) case Err(error) => Err(error) case Ok(config) => Ok(Some(config))
  }

  /** The main file's policy over another file's limits. */
  function Governed(own: BerthConfig, main: BerthConfig): BerthConfig {
    own.(trunk := main.trunk, gateMode := main.gateMode, approver := main.approver,
         defaultAnswer := main.defaultAnswer)
  }

  function Read(files: map<string, File>, lookup: Lookup): Outcome<Enrollment>
    decreases lookup.OwnThenMain?
  {
    match ReadFile(files, lookup.root)
    case Err(error) => Err(error)
    case Ok(Some(own)) =>
      if lookup.Own? then Ok(Enrolled(own))
      else (match ReadFile(files, lookup.main)
            case Err(error) => Err(error)
            case Ok(None) => Ok(Enrolled(own))
            case Ok(Some(main)) => Ok(Enrolled(Governed(own, main))))
    case Ok(None) =>
      if lookup.Own? then Ok(Unconfigured(lookup.root)) else Read(files, Own(lookup.main))
  }

  function InitializedRoot(lookup: Lookup): string {
    match lookup case Own(root) => root case OwnThenMain(_, main) => main
  }

  /** A file that does not read: it cannot be opened, or some line is no setting, or two set one key. */
  ghost predicate IsBroken(files: map<string, File>, root: string) {
    root in files && (files[root].Unreadable? || !AreConsistent(Lines(files[root].contents)))
  }

  /** What a file holds, when it holds a configuration. */
  function HeldConfig(files: map<string, File>, root: string): BerthConfig {
    if root in files && files[root].Text? && Parsed(files[root].contents).Ok?
    then Parsed(files[root].contents).value
    else DEFAULT
  }

  lemma ReadFileExactly(files: map<string, File>, root: string)
    ensures ReadFile(files, root) == Ok(None) <==> root !in files
    ensures ReadFile(files, root).Err? <==> IsBroken(files, root)
    ensures root in files && files[root].Unreadable? ==> ReadFile(files, root) == Err(Io)
    ensures root in files && !IsBroken(files, root) ==> files[root].Text? && Parsed(files[root].contents).Ok?
    ensures root in files && !IsBroken(files, root) ==>
              ReadFile(files, root) == Ok(Some(HeldConfig(files, root))) == Ok(Some(Parsed(files[root].contents).value))
  {
    if root in files && files[root].Text? {
      AcceptedExactly(files[root].contents);
    }
  }

  /** A lookup fails exactly when a file it depends on is broken. Otherwise it finds nothing exactly
      when there is no file, and names the one to create; a main file governs the policy, and the
      worktree's own file the limits. */
  lemma ReadExactly(files: map<string, File>, lookup: Lookup)
    ensures Read(files, lookup).Err? <==>
            IsBroken(files, lookup.root) || (lookup.OwnThenMain? && IsBroken(files, lookup.main))
    ensures Read(files, lookup).Ok? ==>
              var hasMain := lookup.OwnThenMain? && lookup.main in files;
              if lookup.root !in files && !hasMain
              then Read(files, lookup).value == Unconfigured(InitializedRoot(lookup))
              else
                && Read(files, lookup).value.Enrolled?
                && var policy := HeldConfig(files, if hasMain then lookup.main else lookup.root);
                   var limits := HeldConfig(files, if lookup.root in files then lookup.root else lookup.main);
                   var c := Read(files, lookup).value.config;
                   && c.trunk == policy.trunk && c.gateMode == policy.gateMode
                   && c.approver == policy.approver && c.defaultAnswer == policy.defaultAnswer
                   && c.maximumReservations == limits.maximumReservations
                   && c.maximumOrderingEdges == limits.maximumOrderingEdges
  {
    hide Parsed, IsBroken, HeldConfig;
    ReadFileExactly(files, lookup.root);
    if lookup.OwnThenMain? {
      ReadFileExactly(files, lookup.main);
    }
  }

  class Worktrees {
    var files: map<string, File>

    /** Create the initialized worktree's configuration unless it has one. `interloper` is the file
        another process may put there between the look and the exclusive creation. */
    method Initialize(lookup: Lookup, interloper: Option<File>) returns (r: Outcome<InitializationState>)
      modifies this
      ensures var root := InitializedRoot(lookup);
              match ReadFile(old(files), root)
              case Err(error) => r == Err(error) && files == old(files)
              case Ok(Some(_)) => r == Ok(Existing) && files == old(files)
              case Ok(None) =>
                match ReadFile(old(files), lookup.root)
                case Err(error) => r == Err(error) && files == old(files)
                case Ok(carried) =>
                  match interloper
                  case None => r == Ok(Created) && files == old(files)[root := Text(ToToml(Or(carried, DEFAULT)))]
                  case Some(file) =>
                    && files == old(files)[root := file]
                    && r == match ReadFile(files, root) case Err(error) => Err(error) case Ok(_) => Ok(Existing)
      ensures var root := InitializedRoot(lookup);
              if root in old(files)
              then files == old(files) && r.Ok? == !IsBroken(files, root) && (r.Ok? ==> r.value == Existing)
              else if IsBroken(old(files), lookup.root) then r.Err? && files == old(files)
              else if interloper.Some?
              then files == old(files)[root := interloper.value] && r.Ok? == !IsBroken(files, root)
              else r == Ok(Created)
    {
      hide Parsed, IsBroken;
      ReadFileExactly(files, InitializedRoot(lookup));
      ReadFileExactly(files, lookup.root);
      var root := InitializedRoot(lookup);
      var present := ReadFile(files, root);
      if present.Err? {
        return Err(present.error);
      }
      if present.value.Some? {
        return Ok(Existing);
      }
      var config := DEFAULT;
      if lookup.OwnThenMain? {
        var own := ReadFile(files, lookup.root);
        if own.Err? {
          return Err(own.error);
        }
        if own.value.Some? {
          config := own.value.value;
        }
      }
      if interloper.Some? {
        files := files[root := interloper.value];
        ReadFileExactly(files, root);
        var theirs := ReadFile(files, root);
        if theirs.Err? {
          return Err(theirs.error);
        }
        return Ok(Existing);
      }
      files := files[root := Text(ToToml(config))];
      return Ok(Created);
    }
  }

  /** The files a successful initialization leaves when no other process interferes. */
  ghost predicate InitializedFrom(before: map<string, File>, lookup: Lookup, after: map<string, File>) {
    match ReadFile(before, InitializedRoot(lookup))
    case Err(_) => false
    case Ok(Some(_)) => after == before
    case Ok(None) =>
      ReadFile(before, lookup.root).Ok?
      && after == before[InitializedRoot(lookup) := Text(ToToml(Or(ReadFile(before, lookup.root).value, DEFAULT)))]
  }

  /** Without interference initialization succeeds, into the files the predicate describes, exactly
      when the file it looks for first and then the caller's can be read. */
  method InitializeAlone(worktrees: Worktrees, lookup: Lookup) returns (r: Outcome<InitializationState>)
    modifies worktrees
    ensures r.Ok? <==>
            var present := ReadFile(old(worktrees.files), InitializedRoot(lookup));
            present.Ok? && (present.value.Some? || ReadFile(old(worktrees.files), lookup.root).Ok?)
    ensures r.Ok? ==> InitializedFrom(old(worktrees.files), lookup, worktrees.files)
    ensures r.Err? ==> worktrees.files == old(worktrees.files)
  {
    r := worktrees.Initialize(lookup, None);
  }

  lemma ReadFilePrintable(files: map<string, File>, root: string)
    requires ReadFile(files, root).Ok? && ReadFile(files, root).value.Some?
    ensures IsPrintable(ReadFile(files, root).value.value)
  {
    ParsedIsPrintable(files[root].contents);
  }

  lemma DefaultIsPrintable()
    ensures IsPrintable(DEFAULT)
  {
  }

  /** The initialized worktree ends with a readable file: its own, or the caller's, or the default. */
  lemma InitializedFileReads(before: map<string, File>, lookup: Lookup, after: map<string, File>)
    requires InitializedFrom(before, lookup, after)
    ensures var root := InitializedRoot(lookup);
            ReadFile(after, root) ==
            if ReadFile(before, root).value.Some? then ReadFile(before, root)
            else Ok(Some(Or(ReadFile(before, lookup.root).value, DEFAULT)))
    ensures forall other | other != InitializedRoot(lookup) :: ReadFile(after, other) == ReadFile(before, other)
  {
    hide Parsed;
    hide ToToml;
    DefaultIsPrintable();
    if ReadFile(before, InitializedRoot(lookup)).value.None? {
      if ReadFile(before, lookup.root).value.Some? {
        ReadFilePrintable(before, lookup.root);
      }
      PrintedReadsBack(Or(ReadFile(before, lookup.root).value, DEFAULT));
    }
  }

  /** Initialization never changes what an enrolled calling worktree reads. */
  lemma InitializationKeepsCallersConfig(before: map<string, File>, lookup: Lookup, after: map<string, File>)
    requires InitializedFrom(before, lookup, after)
    requires Read(before, lookup).Ok? && Read(before, lookup).value.Enrolled?
    ensures Read(after, lookup) == Read(before, lookup)
  {
    InitializedFileReads(before, lookup, after);
  }

  /** An unenrolled caller is enrolled by it, with the defaults. */
  lemma InitializationEnrolls(before: map<string, File>, lookup: Lookup, after: map<string, File>)
    requires InitializedFrom(before, lookup, after)
    requires Read(before, lookup).Ok? && Read(before, lookup).value.Unconfigured?
    ensures Read(before, lookup).value.expectedRoot == InitializedRoot(lookup)
    ensures Read(after, lookup) == Ok(Enrolled(DEFAULT))
  {
    InitializedFileReads(before, lookup, after);
  }

  /** Afterwards every worktree of that main, when its own file can be read, is enrolled under the
      main file's trunk, gate mode, approver and default answer, and an own file keeps its limits. */
  lemma MainGovernsEveryWorktree(before: map<string, File>, lookup: Lookup, after: map<string, File>, root: string)
    requires InitializedFrom(before, lookup, after)
    ensures var main := InitializedRoot(lookup);
            && ReadFile(after, main).Ok? && ReadFile(after, main).value.Some?
            && var policy := ReadFile(after, main).value.value;
               match ReadFile(after, root)
               case Err(error) => Read(after, OwnThenMain(root, main)) == Err(error)
               case Ok(None) => Read(after, OwnThenMain(root, main)) == Ok(Enrolled(policy))
               case Ok(Some(own)) =>
                 && Read(after, OwnThenMain(root, main)).Ok?
                 && Read(after, OwnThenMain(root, main)).value.Enrolled?
                 && var c := Read(after, OwnThenMain(root, main)).value.config;
                    && c.trunk == policy.trunk && c.gateMode == policy.gateMode
                    && c.approver == policy.approver && c.defaultAnswer == policy.defaultAnswer
                    && c.maximumReservations == own.maximumReservations
                    && c.maximumOrderingEdges == own.maximumOrderingEdges
  {
    InitializedFileReads(before, lookup, after);
  }

  /** A second initialization finds the first one's file and changes nothing. */
  lemma InitializationIsIdempotent(before: map<string, File>, lookup: Lookup, after: map<string, File>)
    requires InitializedFrom(before, lookup, after)
    ensures forall again :: InitializedFrom(after, lookup, again) <==> again == after
  {
    InitializedFileReads(before, lookup, after);
  }
}
