/** The pure helpers of `pykern/pksetup.py`: package discovery from a
  directory walk, console and GUI entry points from file names, the package
  data list, the `--boxed` test flag, and how `setup` layers its keyword
  dictionaries.

  The directory walk, the directory listing, the git file lists, the
  README and requirements text, the computed version and the stored state
  file are inputs: reading them is I/O.
 */
module Setup {
  import opened Results
  import Strings
  import Paths

  // ---------------------------------------------------------------------------
  // _packages
  // ---------------------------------------------------------------------------

  const INIT_FILE: string := "__init__.py"

  /** One `(dirpath, dirnames, filenames)` triple of `os.walk`. */
  datatype WalkEntry = WalkEntry(dirpath: string, files: seq<string>)

  /** `'.'.join(_fullsplit(dirpath))`. */
  function DottedName(dirpath: string): string
  {
    Strings.Join(Paths.FullSplit(dirpath, []), ".")
  }

  /** A directory path made of components gets the dotted name of those
      components. */
  lemma DottedNameOfPath(cs: seq<string>)
    requires |cs| > 0 && Paths.Components(cs)
    ensures DottedName(Strings.Join(cs, [Paths.SEP])) == Strings.Join(cs, ".")
  {
    Paths.FullSplitJoin(cs, []);
    assert cs + [] == cs;
  }

  /** The package names of the walked directories that hold an
      `__init__.py`, in walk order: exactly the dotted names of those
      directories, at most one per directory. */
  function Packages(walk: seq<WalkEntry>): (r: seq<string>)
    ensures |r| <= |walk|
    ensures forall p :: p in r <==>
      exists i :: 0 <= i < |walk| && INIT_FILE in walk[i].files && DottedName(walk[i].dirpath) == p
  {
    if |walk| == 0 then []
    else
      var init := walk[..|walk| - 1];
      assert forall i :: 0 <= i < |init| ==> init[i] == walk[i];
      Packages(init) + PackageOf(walk[|walk| - 1])
  }

  function PackageOf(e: WalkEntry): seq<string>
  {
    if INIT_FILE in e.files then [DottedName(e.dirpath)] else []
  }

  /** `_packages`: the loop over the walk. */
  method PackagesOf(walk: seq<WalkEntry>) returns (res: seq<string>)
    ensures res == Packages(walk)
    ensures forall p :: p in res <==>
      exists i :: 0 <= i < |walk| && INIT_FILE in walk[i].files && DottedName(walk[i].dirpath) == p
  {
    res := [];
    var i := 0;
    while i < |walk|
      invariant 0 <= i <= |walk|
      invariant res == Packages(walk[..i])
    {
      PackagesSnoc(walk, i);
      if INIT_FILE in walk[i].files {
        res := res + [DottedName(walk[i].dirpath)];
      }
      i := i + 1;
    }
    assert walk[..i] == walk;
  }

  /** A walked directory in front contributes its own name, if any, before
      the names of the rest of the walk: one name per package directory, in
      walk order. */
  lemma {:induction false} PackagesCons(e: WalkEntry, rest: seq<WalkEntry>)
    ensures Packages([e] + rest) == PackageOf(e) + Packages(rest)
    decreases |rest|
  {
    var w := [e] + rest;
    if |rest| == 0 {
      assert w[..0] == [];
    } else {
      var init := rest[..|rest| - 1];
      var last := rest[|rest| - 1];
      calc {
        Packages(w);
        { assert w[..|w| - 1] == [e] + init && w[|w| - 1] == last; }
        Packages([e] + init) + PackageOf(last);
        { PackagesCons(e, init); }
        (PackageOf(e) + Packages(init)) + PackageOf(last);
        PackageOf(e) + (Packages(init) + PackageOf(last));
        PackageOf(e) + Packages(rest);
      }
    }
  }

  lemma PackagesSnoc(walk: seq<WalkEntry>, i: int)
    requires 0 <= i < |walk|
    ensures Packages(walk[..i + 1]) == Packages(walk[..i]) + PackageOf(walk[i])
  {
    assert walk[..i + 1][..i] == walk[..i];
  }

  // ---------------------------------------------------------------------------
  // _entry_points
  // ---------------------------------------------------------------------------

  const CONSOLE: string := "console"
  const GUI: string := "gui"

  /** `[a-z]` under `re.IGNORECASE`, on the ASCII alphabet. */
  predicate IsLetter(c: char)
  {
    Strings.IsLower(c) || Strings.IsUpper(c)
  }

  /** `\w` on the ASCII alphabet. */
  predicate IsWordChar(c: char)
  {
    IsLetter(c) || ('0' <= c <= '9') || c == '_'
  }

  predicate EndsWith(s: string, suffix: string)
  {
    |suffix| <= |s| && s[|s| - |suffix|..] == suffix
  }

  /** `glob.glob(os.path.join(pkg, '*' + tag + '.py'))` selects the names
      that do not start with a dot and end with `tag + '.py'`. */
  predicate GlobMatches(b: string, tag: string)
  {
    |b| > 0 && b[0] != '.' && EndsWith(b, tag + ".py")
  }

  /** The regex `^([a-z]\w+)` + tag, with `re.IGNORECASE`, can match `b` with
      its group ending at `j`: a letter, at least one word character up to
      `j`, then the tag in any case. */
  predicate Candidate(b: string, tag: string, j: int)
  {
    && 2 <= j && j + |tag| <= |b|
    && IsLetter(b[0])
    && (forall k :: 1 <= k < j ==> IsWordChar(b[k]))
    && Strings.Lower(b[j..j + |tag|]) == tag
  }

  /** The end of the group the greedy `\w+` settles on: the largest
      candidate at most `j`, found by backtracking from `j` down. */
  function GreedyMatch(b: string, tag: string, j: int): (r: Option<nat>)
    ensures r.Some? ==> Candidate(b, tag, r.value) && r.value <= j
    ensures r.Some? ==> forall i :: r.value < i <= j ==> !Candidate(b, tag, i)
    ensures r.None? ==> forall i :: i <= j ==> !Candidate(b, tag, i)
    decreases j
  {
    if j < 2 then None
    else if Candidate(b, tag, j) then Some(j)
    else GreedyMatch(b, tag, j - 1)
  }

  /** The entry line for basename `b` of package `pkg`, if the glob and the
      regex both accept it: `group(1) = pkg.group(0):main`. */
  function EntryFor(pkg: string, b: string, tag: string): (r: Option<string>)
    ensures r.Some? ==> GlobMatches(b, tag)
  {
    if !GlobMatches(b, tag) then None
    else
      match GreedyMatch(b, tag, |b|)
      case None => None
      case Some(j) => Some(b[..j] + " = " + pkg + "." + b[..j + |tag|] + ":main")
  }

  /** A name gets an entry exactly when the glob accepts it and the regex
      matches somewhere; the entry's program name is the regex group at
      the largest end that matches, and the module is the group followed by
      the tag. */
  lemma EntryForSpec(pkg: string, b: string, tag: string)
    ensures EntryFor(pkg, b, tag).Some? <==> GlobMatches(b, tag) && exists j :: Candidate(b, tag, j)
    ensures EntryFor(pkg, b, tag).Some? ==> exists j ::
      && Candidate(b, tag, j)
      && (forall i :: j < i ==> !Candidate(b, tag, i))
      && EntryFor(pkg, b, tag).value == b[..j] + " = " + pkg + "." + b[..j + |tag|] + ":main"
  {
    match GreedyMatch(b, tag, |b|)
    case Some(j) =>
      assert Candidate(b, tag, j);
      assert forall i :: j < i ==> !Candidate(b, tag, i) by {
        forall i | j < i ensures !Candidate(b, tag, i) {
          if i <= |b| {
            assert !Candidate(b, tag, i);
          }
        }
      }
      if GlobMatches(b, tag) {
        EntryForMatch(pkg, b, tag, j);
      }
    case None =>
      assert forall j :: !Candidate(b, tag, j) by {
        forall j ensures !Candidate(b, tag, j) {
          if j <= |b| {
            assert !Candidate(b, tag, j);
          }
        }
      }
  }

  /** The entry lines of one kind, in listing order. */
  function ScriptsFor(pkg: string, listing: seq<string>, kind: string): (r: seq<string>)
    ensures |r| <= |listing|
    ensures forall e :: e in r <==> exists b :: b in listing && EntryFor(pkg, b, "_" + kind) == Some(e)
  {
    if |listing| == 0 then []
    else
      var rest := ScriptsFor(pkg, listing[1..], kind);
      assert forall b :: b in listing[1..] ==> b in listing;
      assert forall b :: b in listing ==> b == listing[0] || b in listing[1..];
      LineOf(pkg, listing[0], kind) + rest
  }

  /** The entry line one file contributes: its entry, or nothing. */
  function LineOf(pkg: string, b: string, kind: string): seq<string>
  {
    match EntryFor(pkg, b, "_" + kind) case Some(e) => [e] case None => []
  }

  /** One more listed file appends exactly its own line, if any, after the
      lines of the files before it: one line per matching file, in listing
      order. */
  lemma {:induction false} ScriptsForSnoc(pkg: string, listing: seq<string>, b: string, kind: string)
    ensures ScriptsFor(pkg, listing + [b], kind) == ScriptsFor(pkg, listing, kind) + LineOf(pkg, b, kind)
    decreases |listing|
  {
    var l := listing + [b];
    if |listing| == 0 {
      assert l[1..] == [];
    } else {
      assert l[0] == listing[0] && l[1..] == listing[1..] + [b];
      ScriptsForSnoc(pkg, listing[1..], b, kind);
    }
  }

  /** One group of the entry-point dictionary. */
  datatype Group = Group(name: string, scripts: seq<string>)

  /** The group a dictionary holds under `name`, if any. */
  function GroupOf(groups: seq<Group>, name: string): Option<seq<string>>
  {
    if |groups| == 0 then None
    else if groups[0].name == name then Some(groups[0].scripts)
    else GroupOf(groups[1..], name)
  }

  /** The dictionary `_entry_points` builds from the two kinds' entries:
      `setdefault` creates a kind's group with its first entry, so a kind
      without entries has no group, and console is created before gui. */
  function Groups(console: seq<string>, gui: seq<string>): (r: seq<Group>)
    ensures |r| == (if console == [] then 0 else 1) + (if gui == [] then 0 else 1)
    ensures console != [] ==> r[0] == Group(CONSOLE + "_scripts", console)
    ensures gui != [] ==> r[|r| - 1] == Group(GUI + "_scripts", gui)
  {
    (if console == [] then [] else [Group(CONSOLE + "_scripts", console)])
      + (if gui == [] then [] else [Group(GUI + "_scripts", gui)])
  }

  /** `_entry_points(pkg)` over the listing of the package directory:
      `console_scripts` then `gui_scripts`, each present only when some file
      matched. */
  function EntryPoints(pkg: string, listing: seq<string>): (r: seq<Group>)
    ensures GroupOf(r, CONSOLE + "_scripts") ==
      (if ScriptsFor(pkg, listing, CONSOLE) == [] then None else Some(ScriptsFor(pkg, listing, CONSOLE)))
    ensures GroupOf(r, GUI + "_scripts") ==
      (if ScriptsFor(pkg, listing, GUI) == [] then None else Some(ScriptsFor(pkg, listing, GUI)))
    ensures forall i :: 0 <= i < |r| ==> r[i].scripts != []
    ensures |r| <= 2
    ensures forall i :: 0 <= i < |r| ==> r[i].name == CONSOLE + "_scripts" || r[i].name == GUI + "_scripts"
    ensures |r| == 2 ==> r[0].name == CONSOLE + "_scripts" && r[1].name == GUI + "_scripts"
  {
    var console := ScriptsFor(pkg, listing, CONSOLE);
    var gui := ScriptsFor(pkg, listing, GUI);
    GroupsLookup(console, gui);
    Groups(console, gui)
  }

  /** The group of each kind is found under its name, and nothing else is
      there. */
  lemma GroupsLookup(console: seq<string>, gui: seq<string>)
    ensures var r := Groups(console, gui);
      && GroupOf(r, CONSOLE + "_scripts") == (if console == [] then None else Some(console))
      && GroupOf(r, GUI + "_scripts") == (if gui == [] then None else Some(gui))
      && (forall i :: 0 <= i < |r| ==> r[i].scripts != [])
      && (forall i :: 0 <= i < |r| ==> r[i].name == CONSOLE + "_scripts" || r[i].name == GUI + "_scripts")
  {
    assert CONSOLE + "_scripts" != GUI + "_scripts" by {
      assert (CONSOLE + "_scripts")[0] != (GUI + "_scripts")[0];
    }
  }

  /** The file-naming convention: `<prefix>_console.py` and
      `<prefix>_gui.py`, with a prefix of a letter and one or more word
      characters, define the program `<prefix>` calling `main` in that
      module. */
  lemma ConventionalEntry(pkg: string, prefix: string, kind: string)
    requires kind == CONSOLE || kind == GUI
    requires |prefix| >= 2 && IsLetter(prefix[0])
    requires forall k :: 1 <= k < |prefix| ==> IsWordChar(prefix[k])
    ensures EntryFor(pkg, prefix + "_" + kind + ".py", "_" + kind)
      == Some(prefix + " = " + pkg + "." + prefix + "_" + kind + ":main")
  {
    var tag := "_" + kind;
    var b := prefix + tag + ".py";
    var n := |prefix|;
    assert b == prefix + "_" + kind + ".py";
    ConventionalMatch(b, prefix, tag);
    EntryForMatch(pkg, b, tag, n);
    assert b[..n] == prefix && b[..n + |tag|] == prefix + tag by {
      assert b == (prefix + tag) + ".py";
    }
    var head := prefix + " = " + pkg + ".";
    assert head + (prefix + tag) + ":main" == prefix + " = " + pkg + "." + prefix + "_" + kind + ":main" by {
      assert head + (prefix + tag) == head + prefix + "_" + kind;
    }
  }

  lemma EntryForMatch(pkg: string, b: string, tag: string, j: nat)
    requires GlobMatches(b, tag) && GreedyMatch(b, tag, |b|) == Some(j)
    ensures j + |tag| <= |b|
    ensures EntryFor(pkg, b, tag) == Some(b[..j] + " = " + pkg + "." + b[..j + |tag|] + ":main")
  {
  }

  /** The glob accepts a conventional name, and the regex's group ends
      exactly where the prefix does. */
  lemma ConventionalMatch(b: string, prefix: string, tag: string)
    requires tag == "_" + CONSOLE || tag == "_" + GUI
    requires b == prefix + tag + ".py"
    requires |prefix| >= 2 && IsLetter(prefix[0])
    requires forall k :: 1 <= k < |prefix| ==> IsWordChar(prefix[k])
    ensures GlobMatches(b, tag)
    ensures GreedyMatch(b, tag, |b|) == Some(|prefix|)
  {
    ConventionalGlob(b, prefix, tag);
    CandidateAtPrefix(b, prefix, tag);
    assert forall i :: |prefix| < i <= |b| ==> !Candidate(b, tag, i) by {
      forall i | |prefix| < i <= |b| ensures !Candidate(b, tag, i) {
        NoLaterCandidate(b, prefix, tag, i);
      }
    }
    LargestCandidate(b, tag, |prefix|);
  }

  lemma ConventionalGlob(b: string, prefix: string, tag: string)
    requires tag == "_" + CONSOLE || tag == "_" + GUI
    requires b == prefix + tag + ".py"
    requires |prefix| >= 2 && IsLetter(prefix[0])
    ensures GlobMatches(b, tag)
  {
    assert b[|b| - |tag + ".py"|..] == tag + ".py";
  }

  lemma CandidateAtPrefix(b: string, prefix: string, tag: string)
    requires tag == "_" + CONSOLE || tag == "_" + GUI
    requires b == prefix + tag + ".py"
    requires |prefix| >= 2 && IsLetter(prefix[0])
    requires forall k :: 1 <= k < |prefix| ==> IsWordChar(prefix[k])
    ensures Candidate(b, tag, |prefix|)
  {
    var n := |prefix|;
    assert b[n..n + |tag|] == tag;
    LowerOfLowercase(tag);
    forall k | 1 <= k < n ensures IsWordChar(b[k]) {
      assert b[k] == prefix[k];
    }
  }

  /** The greedy match is the largest candidate. */
  lemma LargestCandidate(b: string, tag: string, n: int)
    requires n <= |b| && Candidate(b, tag, n)
    requires forall i :: n < i <= |b| ==> !Candidate(b, tag, i)
    ensures GreedyMatch(b, tag, |b|) == Some(n)
  {
  }

  /** No candidate ends after the prefix: a later tag would have to start at
      an underscore inside the tag or at the dot of `.py`. */
  lemma NoLaterCandidate(b: string, prefix: string, tag: string, i: int)
    requires tag == "_" + CONSOLE || tag == "_" + GUI
    requires b == prefix + tag + ".py"
    requires |prefix| < i <= |b|
    ensures !Candidate(b, tag, i)
  {
    if i + |tag| <= |b| {
      // `b[i]` is a letter of the tag after its underscore, or the dot of
      // `.py`; either way it lowers to something other than the tag's `_`.
      var rest := tag + ".py";
      assert b[i] == rest[i - |prefix|];
      assert b[i] != '_';
      assert Strings.Lower(b[i..i + |tag|])[0] == Strings.LowerChar(b[i]);
      assert Strings.LowerChar(b[i]) != tag[0];
    }
  }

  lemma LowerOfLowercase(s: string)
    requires forall i :: 0 <= i < |s| ==> !Strings.IsUpper(s[i])
    ensures Strings.Lower(s) == s
  {
  }

  // ---------------------------------------------------------------------------
  // _package_data and _boxed_if_os_supports
  // ---------------------------------------------------------------------------

  /** `_package_data`: the untracked and the tracked files under the data
      directory, together and sorted. */
  function PackageData(untracked: seq<string>, tracked: seq<string>): (r: seq<string>)
    ensures Strings.Sorted(r)
    ensures multiset(r) == multiset(untracked) + multiset(tracked)
  {
    Strings.Sort(untracked + tracked)
  }

  /** The result depends only on the files, not on which git listing
      reported them. */
  lemma PackageDataOrderFree(untracked: seq<string>, tracked: seq<string>)
    ensures PackageData(untracked, tracked) == PackageData(tracked, untracked)
    ensures forall f :: f in PackageData(untracked, tracked) <==> f in untracked || f in tracked
  {
    var a := PackageData(untracked, tracked);
    var b := PackageData(tracked, untracked);
    Strings.SortedUnique(a, b);
    forall f ensures f in a <==> f in untracked || f in tracked {
      assert f in a <==> f in multiset(a);
    }
  }

  const BOXED: string := "--boxed"

  /** `_boxed_if_os_supports`: pytest's `--boxed` exactly when the platform
      can fork; `hasFork` stands for `hasattr(os, 'fork')`. */
  function BoxedIfOsSupports(hasFork: bool): (r: seq<string>)
    ensures hasFork <==> BOXED in r
    ensures forall a :: a in r ==> a == BOXED
    ensures |r| <= 1
  {
    if hasFork then [BOXED] else []
  }

  // ---------------------------------------------------------------------------
  // setup and _state
  // ---------------------------------------------------------------------------

  /** A keyword-argument value of `setup`. `Opaque` stands for objects the
      model does not look into (classes, unicode text, ...). */
  datatype Value =
    | Str(s: string)
    | List(items: seq<Value>)
    | Dict(fields: map<string, Value>)
    | Flag(b: bool)
    | Opaque(description: string)

  function Strs(ss: seq<string>): (r: seq<Value>)
    ensures |r| == |ss|
    ensures forall i :: 0 <= i < |ss| ==> r[i] == Str(ss[i])
  {
    if |ss| == 0 then [] else [Str(ss[0])] + Strs(ss[1..])
  }

  function GroupsValue(groups: seq<Group>): map<string, Value>
  {
    if |groups| == 0 then map[]
    else GroupsValue(groups[1..])[groups[0].name := List(Strs(groups[0].scripts))]
  }

  /** The dictionary `setup` builds before `_state`. */
  function Defaults(name: string, longDescription: string, installRequires: seq<string>,
                    listing: seq<string>, walk: seq<WalkEntry>): map<string, Value>
  {
    map[
      "classifiers" := List([]),
      "cmdclass" := Dict(map["test" := Opaque("PyTest"), "sdist" := Opaque("SDist"), "tox" := Opaque("Tox")]),
      "test_suite" := Str("tests"),
      "entry_points" := Dict(GroupsValue(EntryPoints(name, listing))),
      "install_requires" := List(Strs(installRequires)),
      "long_description" := Str(longDescription),
      "name" := Str(name),
      "packages" := List(Strs(Packages(walk))),
      "tests_require" := List([Str("pytest")])
    ]
  }

  /** Where `_state` gets its values: computed in a git checkout from the
      version and the two git file listings, or read from the stored state
      file (`None` when the file is missing). */
  datatype StateSource =
    | Computed(version: string, untracked: seq<string>, tracked: seq<string>)
    | Stored(state: Option<map<string, Value>>)

  const VERSION_KEY: string := "version"
  const PACKAGE_DATA_KEY: string := "package_data"
  const INCLUDE_PACKAGE_DATA_KEY: string := "include_package_data"

  /** `_state_compute`: the version, and the package data with
      `include_package_data` only when there is some. */
  function StateCompute(name: string, version: string, untracked: seq<string>, tracked: seq<string>)
    : (r: map<string, Value>)
    ensures VERSION_KEY in r && r[VERSION_KEY] == Str(version)
    ensures PACKAGE_DATA_KEY in r <==> untracked + tracked != []
    ensures PACKAGE_DATA_KEY in r ==>
      && r[PACKAGE_DATA_KEY] == Dict(map[name := List(Strs(PackageData(untracked, tracked)))])
      && INCLUDE_PACKAGE_DATA_KEY in r && r[INCLUDE_PACKAGE_DATA_KEY] == Flag(true)
    ensures INCLUDE_PACKAGE_DATA_KEY in r <==> PACKAGE_DATA_KEY in r
    ensures r.Keys <= {VERSION_KEY, PACKAGE_DATA_KEY, INCLUDE_PACKAGE_DATA_KEY}
  {
    var pd := PackageData(untracked, tracked);
    assert pd == [] <==> untracked + tracked == [] by {
      assert |pd| == |multiset(pd)| == |untracked + tracked|;
    }
    assert VERSION_KEY[0] == 'v' && PACKAGE_DATA_KEY[0] == 'p' && INCLUDE_PACKAGE_DATA_KEY[0] == 'i';
    var base := map[VERSION_KEY := Str(version)];
    if pd == [] then base
    else base[PACKAGE_DATA_KEY := Dict(map[name := List(Strs(pd))])][INCLUDE_PACKAGE_DATA_KEY := Flag(true)]
  }

  /** `_state`: the values that are layered over the defaults. A missing
      state file outside a git checkout fails the assertion. */
  function State(name: string, source: StateSource): (r: Result<map<string, Value>>)
    ensures source.Stored? && source.state.None? <==> r == Err(AssertionError)
    ensures source.Computed? ==> r == Ok(StateCompute(name, source.version, source.untracked, source.tracked))
    ensures source.Stored? && source.state.Some? ==> r == Ok(source.state.value)
  {
    match source
    case Computed(version, untracked, tracked) => Ok(StateCompute(name, version, untracked, tracked))
    case Stored(None) => Err(AssertionError)
    case Stored(Some(state)) => Ok(state)
  }

  /** The keyword dictionary `setup` hands to `setuptools.setup`, or the
      exception it raises: `KeyError` without `name`, `AssertionError` when
      `name` is not a `str` or the state file is missing. The defaults are
      updated by the state and then by the caller's keywords other than
      `name`. */
  function SetupArgs(kwargs: map<string, Value>, longDescription: string, installRequires: seq<string>,
                     listing: seq<string>, walk: seq<WalkEntry>, source: StateSource)
    : (r: Result<map<string, Value>>)
    ensures "name" !in kwargs ==> r == Err(KeyError)
    ensures "name" in kwargs && !kwargs["name"].Str? ==> r == Err(AssertionError)
    ensures r.Ok? <==> "name" in kwargs && kwargs["name"].Str? && State(kwargs["name"].s, source).Ok?
    ensures r.Ok? ==> "name" in r.value && (source.Computed? ==> VERSION_KEY in r.value)
  {
    if "name" !in kwargs then Err(KeyError)
    else if !kwargs["name"].Str? then Err(AssertionError)
    else
      var name := kwargs["name"].s;
      var state :- State(name, source);
      Ok(Defaults(name, longDescription, installRequires, listing, walk) + state + (kwargs - {"name"}))
  }

  /** Precedence: a caller keyword (other than `name`) wins, then the state,
      then the built-in default; `name` itself comes from the state if it
      has one and from the caller's `name` otherwise. */
  lemma SetupPrecedence(kwargs: map<string, Value>, longDescription: string, installRequires: seq<string>,
                        listing: seq<string>, walk: seq<WalkEntry>, source: StateSource, k: string)
    requires "name" in kwargs && kwargs["name"].Str?
    requires !(source.Stored? && source.state.None?)
    ensures SetupArgs(kwargs, longDescription, installRequires, listing, walk, source).Ok?
    ensures var r := SetupArgs(kwargs, longDescription, installRequires, listing, walk, source).value;
      var name := kwargs["name"].s;
      var state := State(name, source).value;
      var base := Defaults(name, longDescription, installRequires, listing, walk);
      && (k in r <==> k in kwargs || k in state || k in base)
      && (k in kwargs && k != "name" ==> r[k] == kwargs[k])
      && ((k !in kwargs || k == "name") && k in state ==> r[k] == state[k])
      && ((k !in kwargs || k == "name") && k !in state && k in base ==> r[k] == base[k])
      && r["name"] == (if "name" in state then state["name"] else Str(name))
  {
    var name := kwargs["name"].s;
    var state := State(name, source).value;
    var base := Defaults(name, longDescription, installRequires, listing, walk);
    assert SetupArgs(kwargs, longDescription, installRequires, listing, walk, source).value
      == base + state + (kwargs - {"name"});
    assert "name" in base && base["name"] == Str(name) by {
      DefaultName(name, longDescription, installRequires, listing, walk);
    }
    Layered(base, state, kwargs, k);
    Layered(base, state, kwargs, "name");
  }

  lemma DefaultName(name: string, longDescription: string, installRequires: seq<string>,
                    listing: seq<string>, walk: seq<WalkEntry>)
    ensures var base := Defaults(name, longDescription, installRequires, listing, walk);
      "name" in base && base["name"] == Str(name)
  {
    assert "name"[0] == 'n' && "packages"[0] == 'p' && "tests_require"[0] == 't';
  }

  /** Later layers win, and the caller's `name` never reaches the result. */
  lemma Layered(base: map<string, Value>, state: map<string, Value>, kwargs: map<string, Value>, k: string)
    ensures var r := base + state + (kwargs - {"name"});
      && (k in r <==> (k in kwargs && k != "name") || k in state || k in base)
      && (k in kwargs && k != "name" ==> r[k] == kwargs[k])
      && ((k !in kwargs || k == "name") && k in state ==> r[k] == state[k])
      && ((k !in kwargs || k == "name") && k !in state && k in base ==> r[k] == base[k])
  {
  }
}
