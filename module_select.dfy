/** Choosing the module to scan: case-insensitive name comparison, stripping
    a path down to its file name, and resolving a module name against the
    process's module list. The operating system's module list, module file
    names and already-loaded-module table are inputs (a `Process` value). */
module ModuleSelect {
  import opened Wrappers
  import opened Ascii

  // ----------------------------------------------------------------------
  // iequals

  /** Equal after upper-casing every character (the "C" locale `toupper`):
      equal strings compare equal, and strings of different lengths never do. */
  predicate SameIgnoringCase(a: string, b: string)
    ensures a == b ==> SameIgnoringCase(a, b)
    ensures SameIgnoringCase(a, b) ==> |a| == |b|
  {
    Upper(a) == Upper(b)
  }

  /** Case-insensitive equality is equal length and character-by-character
      equality after `toupper`. */
  lemma SameIgnoringCasePointwise(a: string, b: string)
    ensures SameIgnoringCase(a, b) <==>
      |a| == |b| && forall i :: 0 <= i < |a| ==> ToUpper(a[i]) == ToUpper(b[i])
  {
    if |a| == |b| && forall i :: 0 <= i < |a| ==> ToUpper(a[i]) == ToUpper(b[i]) {
      assert forall i :: 0 <= i < |a| ==> Upper(a)[i] == Upper(b)[i];
    }
  }

  /** `iequals`: a length check, then a character loop that stops at the first difference. */
  method IEquals(a: string, b: string) returns (eq: bool)
    ensures eq == SameIgnoringCase(a, b)
  {
    SameIgnoringCasePointwise(a, b);
    if |a| != |b| {
      return false;
    }
    var i := 0;
    while i < |a|
      invariant 0 <= i <= |a|
      invariant forall k :: 0 <= k < i ==> ToUpper(a[k]) == ToUpper(b[k])
    {
      if ToUpper(a[i]) != ToUpper(b[i]) {
        return false;
      }
      i := i + 1;
    }
    return true;
  }

  // ----------------------------------------------------------------------
  // filename_only

  predicate IsSeparator(c: char) {
    c == '\\' || c == '/'
  }

  /** `find_last_of("\\/")`: the index of the last separator, or -1 (`npos`). */
  function LastSeparator(s: string): (i: int)
    ensures -1 <= i < |s|
    ensures i >= 0 ==> IsSeparator(s[i])
    ensures forall j :: i < j < |s| ==> !IsSeparator(s[j])
  {
    if s == [] then -1
    else if IsSeparator(s[|s| - 1]) then |s| - 1
    else LastSeparator(s[..|s| - 1])
  }

  /** `filename_only`: the part of a path after its last `\` or `/`: a
      suffix of the path, cut right after a separator when it is shorter. */
  function FilenameOnly(path: string): (name: string)
    ensures |name| <= |path|
    ensures |name| < |path| ==> IsSeparator(path[|path| - |name| - 1])
  {
    var i := LastSeparator(path);
    if i < 0 then path else path[i + 1..]
  }

  /** The file name is the longest suffix of the path free of separators: the
      whole path when it has none, otherwise what follows the last one. */
  lemma FilenameOnlyIsLastComponent(path: string)
    ensures var name := FilenameOnly(path);
      && |name| <= |path| && name == path[|path| - |name|..]
      && (forall j :: 0 <= j < |name| ==> !IsSeparator(name[j]))
      && (|name| < |path| ==> IsSeparator(path[|path| - |name| - 1]))
      && ((forall j :: 0 <= j < |path| ==> !IsSeparator(path[j])) ==> name == path)
  {
    var i := LastSeparator(path);
    if i >= 0 {
      var name := path[i + 1..];
      assert FilenameOnly(path) == name;
      assert |path| - |name| - 1 == i;
      assert forall j :: 0 <= j < |name| ==> name[j] == path[i + 1 + j];
    } else {
      assert FilenameOnly(path) == path;
    }
  }

  /** Stripping the directory twice changes nothing. */
  lemma FilenameOnlyIdempotent(path: string)
    ensures FilenameOnly(FilenameOnly(path)) == FilenameOnly(path)
  {
    FilenameOnlyIsLastComponent(path);
    FilenameOnlyIsLastComponent(FilenameOnly(path));
  }

  /** A directory prefix ending in a separator is dropped. */
  lemma FilenameOnlyDropsDirectory(dir: string, sep: char, file: string)
    requires IsSeparator(sep)
    requires forall j :: 0 <= j < |file| ==> !IsSeparator(file[j])
    ensures FilenameOnly(dir + [sep] + file) == file
  {
    var path := dir + [sep] + file;
    FilenameOnlyIsLastComponent(path);
    var name := FilenameOnly(path);
    assert path[|dir|] == sep;
  }

  // ----------------------------------------------------------------------
  // The process's modules

  /** A loaded module: its handle (the base address it is mapped at; 0 is
      null), its file path if `GetModuleFileNameExA` succeeds, and its image
      bytes from the base on. */
  datatype Module = Module(handle: nat, path: Option<string>, image: seq<bv8>)

  /** What the scanner asks of the operating system: the main module's handle
      (`GetModuleHandleW(nullptr)`), whether `EnumProcessModules` succeeds and
      the modules it lists (main module first), and the handles
      `GetModuleHandleA` returns for names it knows. */
  datatype Process = Process(
    mainHandle: nat,
    enumOk: bool,
    modules: seq<Module>,
    loadedByName: map<string, nat>)

  /** "", "exe" and "self" (any case) name the main module. */
  predicate IsSelfName(name: string) {
    name == "" || SameIgnoringCase(name, "exe") || SameIgnoringCase(name, "self")
  }

  /** The module's file name, stripped of its directory, is `want` up to case. */
  predicate NameMatches(m: Module, want: string) {
    m.path.Some? && SameIgnoringCase(FilenameOnly(m.path.value), want)
  }

  /** The first module from index `from` on whose file name matches. */
  function FirstNamed(mods: seq<Module>, want: string, from: nat): (r: Option<nat>)
    decreases |mods| - from
    ensures r.Some? ==> from <= r.value < |mods| && NameMatches(mods[r.value], want)
    ensures r.Some? ==> forall j :: from <= j < r.value ==> !NameMatches(mods[j], want)
    ensures r.None? ==> forall j :: from <= j < |mods| ==> !NameMatches(mods[j], want)
  {
    if from >= |mods| then None
    else if NameMatches(mods[from], want) then Some(from)
    else FirstNamed(mods, want, from + 1)
  }

  /** The handle `find_module_by_name` returns (0 for null): the main
      module for a self name; otherwise null after a failed enumeration, and
      else a listed module whose file name matches or what the loaded-module
      table gives for that file name. */
  function ModuleByName(p: Process, name: string): (h: nat)
    ensures IsSelfName(name) ==> h == p.mainHandle
    ensures !IsSelfName(name) && !p.enumOk ==> h == 0
    ensures !IsSelfName(name) && h != 0 ==>
      || (exists i :: 0 <= i < |p.modules| && NameMatches(p.modules[i], FilenameOnly(name)) && p.modules[i].handle == h)
      || (FilenameOnly(name) in p.loadedByName && p.loadedByName[FilenameOnly(name)] == h)
  {
    if IsSelfName(name) then p.mainHandle
    else if !p.enumOk then 0
    else
      var want := FilenameOnly(name);
      match FirstNamed(p.modules, want, 0)
      case Some(i) => p.modules[i].handle
      case None => if want in p.loadedByName then p.loadedByName[want] else 0
  }

  /** The self names are the empty name and "exe" and "self" in any mix of
      cases; each selects the main module whatever the module list holds. */
  lemma SelfNamesSelectMain(p: Process, name: string)
    ensures IsSelfName(name) <==>
      || name == ""
      || (|name| == 3 && ToUpper(name[0]) == 'E' && ToUpper(name[1]) == 'X' && ToUpper(name[2]) == 'E')
      || (|name| == 4 && ToUpper(name[0]) == 'S' && ToUpper(name[1]) == 'E' && ToUpper(name[2]) == 'L'
          && ToUpper(name[3]) == 'F')
    ensures IsSelfName(name) ==> ModuleByName(p, name) == p.mainHandle
  {
    SameIgnoringCasePointwise(name, "exe");
    SameIgnoringCasePointwise(name, "self");
  }

  /** Any other name selects the first listed module whose file name matches
      it, ignoring case and directories; when none matches, the handle the
      loaded-module table gives, else null. A failed enumeration gives null. */
  lemma ModuleByNameSelectsFirstMatch(p: Process, name: string, i: nat)
    requires !IsSelfName(name) && p.enumOk
    requires i < |p.modules| && NameMatches(p.modules[i], FilenameOnly(name))
    requires forall j :: 0 <= j < i ==> !NameMatches(p.modules[j], FilenameOnly(name))
    ensures ModuleByName(p, name) == p.modules[i].handle
  {
  }

  /** Without a matching file name the result comes from the loaded-module table. */
  lemma ModuleByNameFallsBack(p: Process, name: string)
    requires !IsSelfName(name) && p.enumOk
    requires forall j :: 0 <= j < |p.modules| ==> !NameMatches(p.modules[j], FilenameOnly(name))
    ensures ModuleByName(p, name) ==
      (if FilenameOnly(name) in p.loadedByName then p.loadedByName[FilenameOnly(name)] else 0)
  {
  }

  /** `find_module_by_name`: the self-name test, then the enumeration loop
      comparing each module's stripped file name, then the fallback. */
  method FindModuleByName(p: Process, name: string) returns (h: nat)
    ensures h == ModuleByName(p, name)
  {
    if name == "" {
      return p.mainHandle;
    }
    var isExe := IEquals(name, "exe");
    var isSelf := IEquals(name, "self");
    if isExe || isSelf {
      return p.mainHandle;
    }
    if !p.enumOk {
      return 0;
    }
    var want := FilenameOnly(name);
    var i := 0;
    while i < |p.modules|
      invariant 0 <= i <= |p.modules|
      invariant FirstNamed(p.modules, want, i) == FirstNamed(p.modules, want, 0)
    {
      var m := p.modules[i];
      if m.path.Some? {
        var file := FilenameOnly(m.path.value);
        var same := IEquals(file, want);
        if same {
          return m.handle;
        }
      }
      i := i + 1;
    }
    if want in p.loadedByName {
      return p.loadedByName[want];
    }
    return 0;
  }
}
