/** The scanner's entry points: compile the pattern, find the ".text" range
    of a module, search it, and walk the process's modules. A C++ exception
    thrown by the pattern compiler is a `Failure` here; the public
    `patternscan` overloads turn every failure into the null address 0.

    The specification functions below take the outcome of compiling the
    pattern (`Compile(ascii)`) rather than the text itself: compiling is
    pure, so compiling once up front or again for every module, as the
    source does, gives the same answer. */
module Scanner {
  import opened Wrappers
  import opened PatternCompiler
  import opened MaskedMatcher
  import opened PeImage
  import opened ModuleSelect
  import opened Ascii

  /** What compiling a pattern gives: a pattern or the compiler's error. */
  type Compiled = Result<MaskedPattern, CompileError>

  /** A compiled pattern is well formed and non-empty. */
  predicate WellCompiled(cp: Compiled) {
    cp.Success? ==> cp.value.Valid() && 0 < |cp.value.pat|
  }

  lemma CompileIsWellCompiled(ascii: string)
    ensures WellCompiled(Compile(ascii))
  {
  }

  // ----------------------------------------------------------------------
  // What a search of a byte range finds

  /** The pattern occurs at offset `off` of `mem`. */
  predicate Occurs(mem: seq<bv8>, mp: MaskedPattern, off: nat)
    requires mp.Valid()
  {
    off + |mp.pat| <= |mem| && MatchAt(mem, mp, off)
  }

  /** `off` is the first offset at which the pattern occurs. */
  predicate LeftmostAt(mem: seq<bv8>, mp: MaskedPattern, off: nat)
    requires mp.Valid()
  {
    Occurs(mem, mp, off) && forall q: nat :: q < off ==> !Occurs(mem, mp, q)
  }

  /** The pattern occurs nowhere in `mem`. */
  predicate NoMatch(mem: seq<bv8>, mp: MaskedPattern)
    requires mp.Valid()
  {
    forall q: nat :: q <= |mem| ==> !Occurs(mem, mp, q)
  }

  /** The corrected search reports a match exactly when there is one, and
      then the leftmost. */
  lemma FirstMatchIsLeftmost(mem: seq<bv8>, mp: MaskedPattern)
    requires mp.Valid() && 0 < |mp.pat|
    ensures FirstMatch(mem, mp) == |mem| <==> NoMatch(mem, mp)
    ensures FirstMatch(mem, mp) < |mem| ==> LeftmostAt(mem, mp, FirstMatch(mem, mp))
  {
    var r := FirstMatch(mem, mp);
    if r < |mem| {
      assert Occurs(mem, mp, r);
    }
  }

  /** The search as written only ever reports a real match, so it reports
      "not found" whenever there is none; when no wildcard or half-known byte
      precedes the anchor it also finds a match whenever there is one, and
      the leftmost. */
  lemma AsWrittenSearchFinds(mem: seq<bv8>, mp: MaskedPattern)
    requires mp.Valid() && 0 < |mp.pat|
    ensures FindAsWritten(mem, mp) < |mem| ==> Occurs(mem, mp, FindAsWritten(mem, mp))
    ensures NoMatch(mem, mp) ==> FindAsWritten(mem, mp) == |mem|
    ensures ExactBeforeAnchor(mp) ==>
      && (FindAsWritten(mem, mp) == |mem| <==> NoMatch(mem, mp))
      && (FindAsWritten(mem, mp) < |mem| ==> LeftmostAt(mem, mp, FindAsWritten(mem, mp)))
  {
    var r := FindAsWritten(mem, mp);
    if r < |mem| {
      assert Occurs(mem, mp, r);
    }
    if ExactBeforeAnchor(mp) {
      FindAsWrittenLeftmost(mem, mp);
      FirstMatchIsLeftmost(mem, mp);
    }
  }

  // ----------------------------------------------------------------------
  // scan_range

  /** `scan_range`: the address of the match the masked Horspool search
      reports in the `r.size` bytes `mem` found at address `r.base`, or 0
      when it reports none. A pattern that does not compile is the
      compiler's error. */
  function RangeHit(r: Range, mem: seq<bv8>, cp: Compiled): (h: Result<nat, CompileError>)
    requires |mem| == r.size && WellCompiled(cp)
    ensures h.Failure? <==> cp.Failure?
    ensures h.Failure? ==> h.error == cp.error
  {
    var mp :- cp;
    var off := FindAsWritten(mem, mp);
    Success(if off == r.size then 0 else r.base + off)
  }

  /** A nonzero address is that of a match, and no match means 0. When no
      wildcard or half-known byte precedes the anchor, a nonzero address is
      that of the leftmost match and 0 means a null base or no match. */
  lemma RangeHitFinds(r: Range, mem: seq<bv8>, cp: Compiled)
    requires |mem| == r.size && WellCompiled(cp) && cp.Success?
    ensures var h := RangeHit(r, mem, cp).value;
      && (h != 0 ==> r.base <= h && Occurs(mem, cp.value, h - r.base))
      && (NoMatch(mem, cp.value) ==> h == 0)
    ensures var h := RangeHit(r, mem, cp).value;
      ExactBeforeAnchor(cp.value) ==>
        && (h != 0 ==> LeftmostAt(mem, cp.value, h - r.base))
        && (h == 0 ==> r.base == 0 || NoMatch(mem, cp.value))
  {
    AsWrittenSearchFinds(mem, cp.value);
  }

  /** `scan_range`: compile, search with the masked Horspool loop, and turn
      the "not found" offset `r.size` into 0. */
  method ScanRange(r: Range, mem: seq<bv8>, ascii: string) returns (h: Result<nat, CompileError>)
    requires |mem| == r.size
    ensures WellCompiled(Compile(ascii)) && h == RangeHit(r, mem, Compile(ascii))
  {
    var mp := CompileAsciiPattern(ascii);
    if mp.Failure? {
      return Failure(mp.error);
    }
    var off := FindHorspoolMasked(mem, mp.value);
    if off == r.size {
      return Success(0);
    }
    return Success(r.base + off);
  }

  // ----------------------------------------------------------------------
  // scan_module

  /** The range lies inside the module's image, whose bytes start at the
      module's handle. */
  predicate InImage(m: Module, r: Range) {
    m.handle <= r.base && r.base - m.handle + r.size <= |m.image|
  }

  /** The bytes of the image that range `r` covers. */
  function RangeBytes(m: Module, r: Range): (mem: seq<bv8>)
    requires InImage(m, r)
    ensures |mem| == r.size
  {
    m.image[r.base - m.handle..r.base - m.handle + r.size]
  }

  /** A match in a window of the image is a match in the image at the
      window's offset. */
  lemma MatchInWindow(image: seq<bv8>, lo: nat, hi: nat, mp: MaskedPattern, off: nat)
    requires mp.Valid() && lo <= hi <= |image|
    ensures Occurs(image[lo..hi], mp, off) <==>
      off + |mp.pat| <= hi - lo && Occurs(image, mp, lo + off)
  {
    var w, pos := image[lo..hi], lo + off;
    if off + |mp.pat| <= hi - lo {
      forall j: nat | j < |mp.pat|
        ensures MatchesByteAt(w, mp, off, j) <==> MatchesByteAt(image, mp, pos, j)
      {
        assert w[off + j] == image[pos + j];
      }
    }
  }

  /** The leftmost match in a window is, in the image, a match that no
      other match inside the window precedes. */
  lemma LeftmostInWindow(image: seq<bv8>, lo: nat, hi: nat, mp: MaskedPattern, off: nat)
    requires mp.Valid() && lo <= hi <= |image|
    requires LeftmostAt(image[lo..hi], mp, off)
    ensures lo + off + |mp.pat| <= hi && Occurs(image, mp, lo + off)
    ensures forall q: nat :: lo <= q < lo + off && q + |mp.pat| <= hi ==> !Occurs(image, mp, q)
  {
    MatchInWindow(image, lo, hi, mp, off);
    forall q: nat | lo <= q < lo + off && q + |mp.pat| <= hi
      ensures !Occurs(image, mp, q)
    {
      MatchInWindow(image, lo, hi, mp, q - lo);
    }
  }

  /** `scan_module`: 0 when the module has no usable ".text" range,
      otherwise what searching that range finds. */
  function ModuleHit(m: Module, cp: Compiled): (h: Result<nat, CompileError>)
    requires WellCompiled(cp)
    ensures TextRange(m.image, m.handle).None? ==> h == Success(0)
    ensures h.Failure? <==> TextRange(m.image, m.handle).Some? && cp.Failure?
    ensures h.Failure? ==> h.error == cp.error
    ensures h.Success? && h.value != 0 ==> cp.Success?
  {
    match TextRange(m.image, m.handle)
    case None => Success(0)
    case Some(r) =>
      if InImage(m, r) then RangeHit(r, RangeBytes(m, r), cp)
      else
        var _ :- cp;
        Success(0)
  }

  /** A nonzero address lies in the module's ".text" range, which lies in
      its image, and is that of a match there; the leftmost one when no
      wildcard or half-known byte precedes the anchor. */
  lemma ModuleHitFinds(m: Module, cp: Compiled)
    requires WellCompiled(cp) && ModuleHit(m, cp).Success? && ModuleHit(m, cp).value != 0
    ensures TextRange(m.image, m.handle).Some?
    ensures var r, a := TextRange(m.image, m.handle).value, ModuleHit(m, cp).value;
      InImage(m, r) && r.base <= a && Occurs(RangeBytes(m, r), cp.value, a - r.base)
    ensures var r, a := TextRange(m.image, m.handle).value, ModuleHit(m, cp).value;
      ExactBeforeAnchor(cp.value) ==> LeftmostAt(RangeBytes(m, r), cp.value, a - r.base)
  {
    var r := TextRange(m.image, m.handle).value;
    RangeHitFinds(r, RangeBytes(m, r), cp);
  }

  /** `scan_module`: `get_text_range`, then `scan_range` over its bytes. */
  method ScanModule(m: Module, ascii: string) returns (h: Result<nat, CompileError>)
    ensures WellCompiled(Compile(ascii)) && h == ModuleHit(m, Compile(ascii))
  {
    CompileIsWellCompiled(ascii);
    var ok, r := GetTextRange(m.image, m.handle);
    if !ok {
      return Success(0);
    }
    assert TextRange(m.image, m.handle) == Some(r);
    if InImage(m, r) {
      h := ScanRange(r, RangeBytes(m, r), ascii);
      assert h == ModuleHit(m, Compile(ascii));
    } else {
      var mp := CompileAsciiPattern(ascii);
      if mp.Failure? {
        return Failure(mp.error);
      }
      h := Success(0);
    }
  }

  // ----------------------------------------------------------------------
  // scan_all_modules

  /** The first outcome from index `from` on that is not an empty search
      (`Success(0)`): a nonzero address or an error. */
  function FirstNonzero(hits: seq<Result<nat, CompileError>>, from: nat): (h: Result<nat, CompileError>)
    decreases |hits| - from
    ensures h == Success(0) <==> forall k :: from <= k < |hits| ==> hits[k] == Success(0)
  {
    if from >= |hits| then Success(0)
    else if hits[from] != Success(0) then hits[from]
    else FirstNonzero(hits, from + 1)
  }

  /** The walk stops at the first outcome that is not an empty search. */
  lemma {:induction false} FirstNonzeroIsFirst(hits: seq<Result<nat, CompileError>>, from: nat, k: nat)
    requires from <= k < |hits|
    requires forall j :: from <= j < k ==> hits[j] == Success(0)
    requires hits[k] != Success(0)
    ensures FirstNonzero(hits, from) == hits[k]
    decreases k - from
  {
    if from < k {
      FirstNonzeroIsFirst(hits, from + 1, k);
    }
  }

  /** What scanning each listed module gives, in list order. */
  function ModuleHits(mods: seq<Module>, cp: Compiled): (hits: seq<Result<nat, CompileError>>)
    requires WellCompiled(cp)
    ensures |hits| == |mods|
  {
    seq(|mods|, k requires 0 <= k < |mods| => ModuleHit(mods[k], cp))
  }

  /** Whatever module ends the walk, an error is the compiler's and an
      address needs a compiled pattern. */
  lemma {:induction false} WalkOutcome(mods: seq<Module>, cp: Compiled, from: nat)
    requires WellCompiled(cp)
    decreases |mods| - from
    ensures var h := FirstNonzero(ModuleHits(mods, cp), from);
      && (h.Failure? ==> cp.Failure? && h == Failure(cp.error))
      && (h.Success? && h.value != 0 ==> cp.Success?)
  {
    var hits := ModuleHits(mods, cp);
    if from < |mods| {
      var h := ModuleHit(mods[from], cp);
      assert hits[from] == h;
      if h == Success(0) {
        WalkOutcome(mods, cp, from + 1);
        assert FirstNonzero(hits, from) == FirstNonzero(hits, from + 1);
      } else {
        assert FirstNonzero(hits, from) == h;
      }
    }
  }

  /** `scan_all_modules`: a failed enumeration gives 0; otherwise the main
      module (listed first) is searched, then the others in order, and the
      first nonzero address or compiler error ends the walk. */
  function AllModulesHit(p: Process, cp: Compiled): (h: Result<nat, CompileError>)
    requires WellCompiled(cp)
    ensures h.Failure? ==> cp.Failure? && h == Failure(cp.error)
    ensures h.Success? && h.value != 0 ==> cp.Success?
  {
    if !p.enumOk then Success(0)
    else
      WalkOutcome(p.modules, cp, 0);
      FirstNonzero(ModuleHits(p.modules, cp), 0)
  }

  /** The loop of `scan_all_modules`: modules `from` onwards, in order,
      until one gives a nonzero address or the compiler throws. */
  method ScanModulesFrom(mods: seq<Module>, ascii: string, from: nat) returns (h: Result<nat, CompileError>)
    requires from <= |mods|
    ensures WellCompiled(Compile(ascii)) && h == FirstNonzero(ModuleHits(mods, Compile(ascii)), from)
  {
    CompileIsWellCompiled(ascii);
    ghost var hits := ModuleHits(mods, Compile(ascii));
    var i := from;
    while i < |mods|
      invariant from <= i <= |mods|
      invariant FirstNonzero(hits, i) == FirstNonzero(hits, from)
    {
      h := ScanModule(mods[i], ascii);
      assert h == hits[i];
      if h.Failure? || h.value != 0 {
        assert FirstNonzero(hits, i) == h;
        return;
      }
      assert FirstNonzero(hits, i + 1) == FirstNonzero(hits, i);
      i := i + 1;
    }
    assert FirstNonzero(hits, i) == Success(0);
    return Success(0);
  }

  /** `scan_all_modules`: the enumeration check, module 0 first, then the
      loop from 1. */
  method ScanAllModules(p: Process, ascii: string) returns (h: Result<nat, CompileError>)
    ensures WellCompiled(Compile(ascii)) && h == AllModulesHit(p, Compile(ascii))
  {
    CompileIsWellCompiled(ascii);
    ghost var hits := ModuleHits(p.modules, Compile(ascii));
    if !p.enumOk {
      return Success(0);
    }
    assert AllModulesHit(p, Compile(ascii)) == FirstNonzero(hits, 0);
    if |p.modules| == 0 {
      return Success(0);
    }
    h := ScanModule(p.modules[0], ascii);
    assert h == hits[0];
    if h.Failure? || h.value != 0 {
      assert FirstNonzero(hits, 0) == h;
      return;
    }
    assert FirstNonzero(hits, 1) == FirstNonzero(hits, 0);
    h := ScanModulesFrom(p.modules, ascii, 1);
  }

  // ----------------------------------------------------------------------
  // The public overloads

  /** The address a search outcome stands for: a caught exception is 0, so
      a nonzero address always comes from a search that succeeded. */
  function AddressOf(h: Result<nat, CompileError>): (a: nat)
    ensures h.Failure? ==> a == 0
    ensures a != 0 ==> h == Success(a)
  {
    match h
    case Failure(_) => 0
    case Success(v) => v
  }

  /** `patternscan(pattern)`: a null pattern or any exception gives 0. */
  function ScanAnyModule(p: Process, pattern: Option<string>): (a: nat)
    ensures a != 0 ==> pattern.Some? && p.enumOk && Compile(pattern.value).Success?
  {
    if pattern.None? then 0
    else
      CompileIsWellCompiled(pattern.value);
      AddressOf(AllModulesHit(p, Compile(pattern.value)))
  }

  /** The address found is that of the first module, in list order, with a
      match in its ".text" range. */
  lemma ScanAnyModuleFirstHit(p: Process, ascii: string, k: nat)
    requires p.enumOk && k < |p.modules|
    requires WellCompiled(Compile(ascii))
    requires forall j :: 0 <= j < k ==> ModuleHits(p.modules, Compile(ascii))[j] == Success(0)
    requires ModuleHits(p.modules, Compile(ascii))[k].Success?
    requires ModuleHits(p.modules, Compile(ascii))[k].value != 0
    ensures ScanAnyModule(p, Some(ascii)) == ModuleHit(p.modules[k], Compile(ascii)).value
  {
    FirstNonzeroIsFirst(ModuleHits(p.modules, Compile(ascii)), 0, k);
  }

  /** No module has a match in its ".text" range: the result is 0. */
  lemma ScanAnyModuleNone(p: Process, ascii: string)
    requires WellCompiled(Compile(ascii))
    requires forall k :: 0 <= k < |p.modules| ==> ModuleHits(p.modules, Compile(ascii))[k] == Success(0)
    ensures ScanAnyModule(p, Some(ascii)) == 0
  {
  }

  /** A pattern that does not compile never yields an address. */
  lemma BadPatternScansToZero(p: Process, ascii: string)
    requires Compile(ascii).Failure?
    ensures ScanAnyModule(p, Some(ascii)) == 0
  {
  }

  /** The module a handle refers to: the first listed module with that
      handle. */
  function ModuleAt(mods: seq<Module>, handle: nat): (m: Option<Module>)
    ensures m.Some? ==> m.value in mods && m.value.handle == handle
    ensures m.None? ==> forall k :: 0 <= k < |mods| ==> mods[k].handle != handle
  {
    if mods == [] then None
    else if mods[0].handle == handle then Some(mods[0])
    else ModuleAt(mods[1..], handle)
  }

  /** The address scanning the module with a given handle gives: 0 for the
      null handle or a handle that names no listed module. */
  function HandleHit(p: Process, handle: nat, cp: Compiled): (a: nat)
    requires WellCompiled(cp)
    ensures a != 0 ==>
      && handle != 0 && ModuleAt(p.modules, handle).Some? && cp.Success?
      && ModuleHit(ModuleAt(p.modules, handle).value, cp) == Success(a)
  {
    if handle == 0 then 0
    else match ModuleAt(p.modules, handle)
      case None => 0
      case Some(m) => AddressOf(ModuleHit(m, cp))
  }

  /** `patternscan(module, pattern)`: a null module name means the main
      module; a name that resolves to no module, a null pattern or any
      exception gives 0. */
  function ScanNamedModule(p: Process, moduleName: Option<string>, pattern: Option<string>): (a: nat)
    ensures a != 0 ==> pattern.Some? && Compile(pattern.value).Success?
    ensures ModuleByName(p, moduleName.GetOr("")) == 0 ==> a == 0
    ensures a != 0 ==>
      var h := ModuleByName(p, moduleName.GetOr(""));
      && h != 0 && ModuleAt(p.modules, h).Some?
      && WellCompiled(Compile(pattern.value))
      && ModuleHit(ModuleAt(p.modules, h).value, Compile(pattern.value)) == Success(a)
  {
    if pattern.None? then 0
    else
      CompileIsWellCompiled(pattern.value);
      HandleHit(p, ModuleByName(p, moduleName.GetOr("")), Compile(pattern.value))
  }

  /** A null module name and every self name ("", "exe" or "self" in any
      case) scan the main module. */
  lemma NullModuleNameIsMain(p: Process, moduleName: Option<string>, ascii: string)
    requires moduleName.None? || IsSelfName(moduleName.value)
    ensures WellCompiled(Compile(ascii))
    ensures ScanNamedModule(p, moduleName, Some(ascii)) == HandleHit(p, p.mainHandle, Compile(ascii))
  {
    SelfNamesSelectMain(p, moduleName.GetOr(""));
  }

  /** Any other name scans the first listed module whose stripped file name
      matches it ignoring case. */
  lemma NamedModuleIsFirstMatch(p: Process, name: string, ascii: string, i: nat)
    requires !IsSelfName(name) && p.enumOk
    requires i < |p.modules| && NameMatches(p.modules[i], FilenameOnly(name))
    requires forall j :: 0 <= j < i ==> !NameMatches(p.modules[j], FilenameOnly(name))
    requires p.modules[i].handle != 0 && ModuleAt(p.modules, p.modules[i].handle) == Some(p.modules[i])
    ensures WellCompiled(Compile(ascii))
    ensures ScanNamedModule(p, Some(name), Some(ascii)) == AddressOf(ModuleHit(p.modules[i], Compile(ascii)))
  {
    CompileIsWellCompiled(ascii);
    ModuleByNameSelectsFirstMatch(p, name, i);
  }

  /** `patternscan(base, size, pattern)`: 0 for a null base, a zero size, a
      null pattern or a pattern that does not compile; otherwise the address
      of the match the search reports in the `size` bytes `mem` at `base`,
      or 0. */
  function ScanRegion(base: nat, size: nat, mem: seq<bv8>, pattern: Option<string>): (a: nat)
    requires |mem| == size
    ensures a != 0 ==>
      && pattern.Some? && base != 0 && size != 0 && Compile(pattern.value).Success?
      && base <= a && Occurs(mem, Compile(pattern.value).value, a - base)
    ensures pattern.Some? && Compile(pattern.value).Success? && NoMatch(mem, Compile(pattern.value).value) ==> a == 0
    ensures pattern.Some? && base != 0 && Compile(pattern.value).Success? ==>
      ExactBeforeAnchor(Compile(pattern.value).value) ==>
        && (a != 0 <==> !NoMatch(mem, Compile(pattern.value).value))
        && (a != 0 ==> LeftmostAt(mem, Compile(pattern.value).value, a - base))
  {
    if base == 0 || size == 0 || pattern.None? then 0
    else
      CompileIsWellCompiled(pattern.value);
      var cp := Compile(pattern.value);
      if cp.Success? then RangeHitFinds(Range(base, size), mem, cp); AddressOf(RangeHit(Range(base, size), mem, cp))
      else AddressOf(RangeHit(Range(base, size), mem, cp))
  }

  /** `48 ?? C0` is three tokens. */
  lemma ExampleTokens()
    ensures Tokens("48 ?? C0") == ["48", "??", "C0"]
  {
    var ascii := "48 ?? C0";
    assert WordEnd(ascii, 6) == 8 && ascii[6..8] == "C0";
    assert TokensFrom(ascii, 6) == ["C0"];
    assert TokensFrom(ascii, 5) == TokensFrom(ascii, 6);
    assert WordEnd(ascii, 3) == 5 && ascii[3..5] == "??";
    assert TokensFrom(ascii, 3) == ["??", "C0"];
    assert TokensFrom(ascii, 2) == TokensFrom(ascii, 3);
    assert WordEnd(ascii, 0) == 2 && ascii[0..2] == "48";
  }

  /** The tokens `48` and `C0` are the exact bytes 0x48 and 0xC0. */
  lemma ExampleBytes()
    ensures PushByteToken("48") == Success(MaskedByte(0x48, 0xFF))
    ensures PushByteToken("C0") == Success(MaskedByte(0xC0, 0xFF))
  {
    assert HighNibble('4') == MaskedByte(0x40, 0xF0);
    assert LowNibble('8') == MaskedByte(0x08, 0x0F);
    assert HighNibble('C') == MaskedByte(0xC0, 0xF0);
    assert LowNibble('0') == MaskedByte(0x00, 0x0F);
  }

  /** What each token of `48 ?? C0` compiles to. */
  lemma ExampleTokenBytes()
    ensures TokenBytes(Tokens("48 ?? C0")) ==
      [Success(MaskedByte(0x48, 0xFF)), Success(MaskedByte(0x00, 0x00)), Success(MaskedByte(0xC0, 0xFF))]
  {
    ExampleTokens();
    ExampleBytes();
    PushByteTokenIgnoresCase("48");
    PushByteTokenIgnoresCase("??");
    PushByteTokenIgnoresCase("C0");
  }

  /** `48 ?? C0` compiles to the bytes 48 00 C0 under the masks FF 00 FF. */
  lemma ExampleCompiles()
    ensures Compile("48 ?? C0") == Success(MaskedPattern([0x48, 0x00, 0xC0], [0xFF, 0x00, 0xFF]))
  {
    ExampleTokenBytes();
    var bytes: seq<Result<MaskedByte, CompileError>> :=
      [Success(MaskedByte(0x48, 0xFF)), Success(MaskedByte(0x00, 0x00)), Success(MaskedByte(0xC0, 0xFF))];
    assert Assemble(bytes, 0) == Success(MaskedPattern([], []));
    assert [] + [0x48 as bv8] == [0x48] && [] + [0xFF as bv8] == [0xFF];
    assert Assemble(bytes, 1) == Success(MaskedPattern([0x48], [0xFF]));
    assert [0x48 as bv8] + [0x00] == [0x48, 0x00] && [0xFF as bv8] + [0x00] == [0xFF, 0x00];
    assert Assemble(bytes, 2) == Success(MaskedPattern([0x48, 0x00], [0xFF, 0x00]));
    assert [0x48 as bv8, 0x00] + [0xC0] == [0x48, 0x00, 0xC0] && [0xFF as bv8, 0x00] + [0xFF] == [0xFF, 0x00, 0xFF];
    assert Assemble(bytes, 3) == Success(MaskedPattern([0x48, 0x00, 0xC0], [0xFF, 0x00, 0xFF]));
  }

  /** The pattern `48 ?? C0` over the four bytes `00 48 C0 C0` at address
      0x1000: the pattern occurs at 0x1001, yet the scan reports 0, because
      the search as written skips past the match (see
      `MaskedMatcher.FindAsWrittenMissesMatch`). */
  lemma ScanRegionMissesMatch()
    ensures var mem: seq<bv8> := [0x00, 0x48, 0xC0, 0xC0];
      var mp := MaskedPattern([0x48, 0x00, 0xC0], [0xFF, 0x00, 0xFF]);
      && Compile("48 ?? C0") == Success(mp)
      && Occurs(mem, mp, 1)
      && ScanRegion(0x1000, 4, mem, Some("48 ?? C0")) == 0
  {
    ExampleCompiles();
    FindAsWrittenMissesMatch();
  }

  /** `patternscan(pattern)`: `scan_all_modules` with exceptions caught. */
  method PatternScan(p: Process, pattern: Option<string>) returns (a: nat)
    ensures a == ScanAnyModule(p, pattern)
  {
    if pattern.None? {
      return 0;
    }
    var h := ScanAllModules(p, pattern.value);
    if h.Failure? {
      return 0;
    }
    return h.value;
  }

  /** `patternscan(module, pattern)`: resolve the name, then `scan_module`. */
  method PatternScanInModule(p: Process, moduleName: Option<string>, pattern: Option<string>) returns (a: nat)
    ensures a == ScanNamedModule(p, moduleName, pattern)
  {
    if pattern.None? {
      return 0;
    }
    var h := FindModuleByName(p, moduleName.GetOr(""));
    if h == 0 {
      return 0;
    }
    var m := ModuleAt(p.modules, h);
    if m.None? {
      return 0;
    }
    var res := ScanModule(m.value, pattern.value);
    if res.Failure? {
      return 0;
    }
    return res.value;
  }

  /** `patternscan(base, size, pattern)`: the argument checks, then
      `scan_range`. */
  method PatternScanInRange(base: nat, size: nat, mem: seq<bv8>, pattern: Option<string>) returns (a: nat)
    requires |mem| == size
    ensures a == ScanRegion(base, size, mem, pattern)
  {
    if base == 0 || size == 0 || pattern.None? {
      return 0;
    }
    var h := ScanRange(Range(base, size), mem, pattern.value);
    if h.Failure? {
      return 0;
    }
    return h.value;
  }
}
