/** The wildcard-aware Horspool search: finds a compiled pattern in a byte
    buffer, comparing each pattern byte only on the bits of its mask.
    "Not found" is reported by returning the buffer length. */
module MaskedMatcher {
  import opened PatternCompiler

  /** A haystack byte agrees with a pattern byte on every bit of the mask. */
  predicate ByteMatches(h: bv8, p: bv8, m: bv8) {
    (h ^ p) & m == 0
  }

  /** Pattern byte `j` agrees with the haystack when the pattern sits at `pos`. */
  predicate MatchesByteAt(hay: seq<bv8>, mp: MaskedPattern, pos: nat, j: nat)
    requires mp.Valid() && j < |mp.pat| && pos + |mp.pat| <= |hay|
  {
    ByteMatches(hay[pos + j], mp.pat[j], mp.mask[j])
  }

  /** The pattern occurs at offset `pos` of the haystack. */
  predicate MatchAt(hay: seq<bv8>, mp: MaskedPattern, pos: nat)
    requires mp.Valid() && pos + |mp.pat| <= |hay|
  {
    forall j: nat :: j < |mp.pat| ==> MatchesByteAt(hay, mp, pos, j)
  }

  /** A full mask compares the whole byte; an empty mask accepts any byte;
      a nibble mask compares that nibble alone. */
  lemma ByteMatchesByMask(h: bv8, p: bv8)
    ensures ByteMatches(h, p, 0xFF) <==> h == p
    ensures ByteMatches(h, p, 0x00)
    ensures ByteMatches(h, p, 0xF0) <==> h >> 4 == p >> 4
    ensures ByteMatches(h, p, 0x0F) <==> h & 0x0F == p & 0x0F
  {
  }

  // ----------------------------------------------------------------------
  // The reference: the leftmost match

  /** The first offset at or after `pos` where the pattern occurs, or the
      haystack length when there is none. This is also the linear scan the
      matcher falls back to when the pattern has no fully-known byte. */
  function FirstMatchFrom(hay: seq<bv8>, mp: MaskedPattern, pos: nat): (r: nat)
    requires mp.Valid() && 0 < |mp.pat| <= |hay|
    decreases |hay| - pos
    ensures r == |hay| || (pos <= r && r + |mp.pat| <= |hay| && MatchAt(hay, mp, r))
    ensures forall p: nat :: pos <= p < r && p + |mp.pat| <= |hay| ==> !MatchAt(hay, mp, p)
  {
    if pos + |mp.pat| > |hay| then |hay|
    else if MatchAt(hay, mp, pos) then pos
    else FirstMatchFrom(hay, mp, pos + 1)
  }

  /** The leftmost match, or the haystack length when there is none (also for
      an empty pattern and for a haystack shorter than the pattern). */
  function FirstMatch(hay: seq<bv8>, mp: MaskedPattern): (r: nat)
    requires mp.Valid()
    ensures r <= |hay|
    ensures |mp.pat| == 0 || |hay| < |mp.pat| ==> r == |hay|
    ensures r < |hay| ==> r + |mp.pat| <= |hay| && MatchAt(hay, mp, r)
    ensures 0 < |mp.pat| ==> forall p: nat :: p < r && p + |mp.pat| <= |hay| ==> !MatchAt(hay, mp, p)
  {
    if |mp.pat| == 0 || |hay| < |mp.pat| then |hay| else FirstMatchFrom(hay, mp, 0)
  }

  /** Skipping offsets that hold no match does not change the leftmost match. */
  lemma {:induction false} FirstMatchFromSkip(hay: seq<bv8>, mp: MaskedPattern, p: nat, q: nat)
    requires mp.Valid() && 0 < |mp.pat| <= |hay|
    requires p <= q
    requires forall d: nat :: p <= d < q && d + |mp.pat| <= |hay| ==> !MatchAt(hay, mp, d)
    ensures FirstMatchFrom(hay, mp, p) == FirstMatchFrom(hay, mp, q)
    decreases q - p
  {
    if p < q && p + |mp.pat| <= |hay| {
      FirstMatchFromSkip(hay, mp, p + 1, q);
    }
  }

  // ----------------------------------------------------------------------
  // The anchor and the skip tables

  /** The last index below `k` whose mask is 0xFF, or -1. */
  function LastFullBefore(mask: seq<bv8>, k: nat): (t: int)
    requires k <= |mask|
    ensures -1 <= t < k
    ensures t >= 0 ==> mask[t] == 0xFF
    ensures forall i :: t < i < k ==> mask[i] != 0xFF
  {
    if k == 0 then -1 else if mask[k - 1] == 0xFF then k - 1 else LastFullBefore(mask, k - 1)
  }

  /** The anchor (`tail`): the last fully-known pattern byte, or -1 if there is none. */
  function Anchor(mp: MaskedPattern): int
    requires mp.Valid()
  {
    LastFullBefore(mp.mask, |mp.mask|)
  }

  /** All pattern bytes before the anchor are fully known. */
  predicate ExactBeforeAnchor(mp: MaskedPattern)
    requires mp.Valid()
  {
    forall i :: 0 <= i < Anchor(mp) ==> mp.mask[i] == 0xFF
  }

  /** Skip-table entry for byte value `c` once pattern positions below `k` have
      been entered, as the source builds it: every entry starts at `tail + 1`,
      and a fully-known byte at `i < tail` sets its own entry to `tail - i`;
      bytes that are not fully known are not entered at all. */
  function SkipAsWritten(mp: MaskedPattern, tail: nat, k: nat, c: int): (s: nat)
    requires mp.Valid() && tail < |mp.pat| && k <= tail
    ensures 1 <= s <= tail + 1
    ensures s <= tail ==> mp.mask[tail - s] == 0xFF && mp.pat[tail - s] as int == c
    ensures forall i :: tail - s < i < k && mp.mask[i] == 0xFF ==> mp.pat[i] as int != c
  {
    if k == 0 then tail + 1
    else if mp.mask[k - 1] == 0xFF && mp.pat[k - 1] as int == c then tail - (k - 1)
    else SkipAsWritten(mp, tail, k - 1, c)
  }

  /** The corrected skip table: a pattern byte below `tail` that is not fully
      known could sit over any haystack byte, so it caps every entry at `tail - i`. */
  function SkipFixed(mp: MaskedPattern, tail: nat, k: nat, c: int): (s: nat)
    requires mp.Valid() && tail < |mp.pat| && k <= tail
    ensures 1 <= s <= tail + 1
    ensures forall i :: tail - s < i < k ==> mp.mask[i] == 0xFF && mp.pat[i] as int != c
  {
    if k == 0 then tail + 1
    else if mp.mask[k - 1] != 0xFF || mp.pat[k - 1] as int == c then tail - (k - 1)
    else SkipFixed(mp, tail, k - 1, c)
  }

  /** The window argument of Horspool's algorithm: if no fully-known pattern
      byte in the `s - 1` positions left of the anchor equals the haystack byte
      under the anchor, then none of the next `s - 1` offsets is a match. */
  lemma SkipWindowHasNoMatch(hay: seq<bv8>, mp: MaskedPattern, tail: nat, pos: nat, s: nat)
    requires mp.Valid() && tail < |mp.pat| && pos + |mp.pat| <= |hay|
    requires s <= tail + 1
    requires forall i :: tail - s < i < tail ==> mp.mask[i] == 0xFF && mp.pat[i] as int != hay[pos + tail] as int
    ensures forall p: nat :: pos < p < pos + s && p + |mp.pat| <= |hay| ==> !MatchAt(hay, mp, p)
  {
    forall p: nat | pos < p < pos + s && p + |mp.pat| <= |hay|
      ensures !MatchAt(hay, mp, p)
    {
      var i := tail - (p - pos);
      assert p + i == pos + tail;
      assert !MatchesByteAt(hay, mp, p, i);
    }
  }

  // ----------------------------------------------------------------------
  // The matcher as written

  /** The anchored search loop as written: compare the byte under the anchor,
      verify the whole pattern on agreement, then advance by the skip-table
      entry of the byte under the anchor. */
  function HorspoolFrom(hay: seq<bv8>, mp: MaskedPattern, tail: nat, pos: nat): (r: nat)
    requires mp.Valid() && tail < |mp.pat| <= |hay| && mp.mask[tail] == 0xFF
    decreases |hay| - pos
    ensures r == |hay| || (pos <= r && r + |mp.pat| <= |hay| && MatchAt(hay, mp, r))
  {
    if pos + |mp.pat| > |hay| then |hay|
    else
      var h := hay[pos + tail];
      if h == mp.pat[tail] && MatchAt(hay, mp, pos) then pos
      else HorspoolFrom(hay, mp, tail, pos + SkipAsWritten(mp, tail, tail, h as int))
  }

  /** `find_horspool_masked` as written. Whatever it returns is the haystack
      length or a real match; with no fully-known byte it is the leftmost match. */
  function FindAsWritten(hay: seq<bv8>, mp: MaskedPattern): (r: nat)
    requires mp.Valid()
    ensures r <= |hay|
    ensures |mp.pat| == 0 || |hay| < |mp.pat| ==> r == |hay|
    ensures r < |hay| ==> r + |mp.pat| <= |hay| && MatchAt(hay, mp, r)
    ensures Anchor(mp) < 0 ==> r == FirstMatch(hay, mp)
  {
    if |mp.pat| == 0 || |hay| < |mp.pat| then |hay|
    else if Anchor(mp) < 0 then FirstMatchFrom(hay, mp, 0)
    else HorspoolFrom(hay, mp, Anchor(mp), 0)
  }

  /** The anchor byte disagrees: no match at this offset. */
  lemma AnchorMismatch(hay: seq<bv8>, mp: MaskedPattern, tail: nat, pos: nat)
    requires mp.Valid() && tail < |mp.pat| && pos + |mp.pat| <= |hay| && mp.mask[tail] == 0xFF
    requires hay[pos + tail] != mp.pat[tail]
    ensures !MatchAt(hay, mp, pos)
  {
    assert !MatchesByteAt(hay, mp, pos, tail);
  }

  /** One skip of the loop as written jumps over no match, provided every byte
      before the anchor is fully known. */
  lemma SkipAsWrittenIsSafe(hay: seq<bv8>, mp: MaskedPattern, tail: nat, pos: nat)
    requires mp.Valid() && tail < |mp.pat| && pos + |mp.pat| <= |hay|
    requires forall i :: 0 <= i < tail ==> mp.mask[i] == 0xFF
    requires !MatchAt(hay, mp, pos)
    ensures var s := SkipAsWritten(mp, tail, tail, hay[pos + tail] as int);
      FirstMatchFrom(hay, mp, pos) == FirstMatchFrom(hay, mp, pos + s)
  {
    var s := SkipAsWritten(mp, tail, tail, hay[pos + tail] as int);
    SkipWindowHasNoMatch(hay, mp, tail, pos, s);
    FirstMatchFromSkip(hay, mp, pos, pos + s);
  }

  /** One skip of the corrected loop jumps over no match, whatever the masks. */
  lemma SkipFixedIsSafe(hay: seq<bv8>, mp: MaskedPattern, tail: nat, pos: nat)
    requires mp.Valid() && tail < |mp.pat| && pos + |mp.pat| <= |hay|
    requires !MatchAt(hay, mp, pos)
    ensures var s := SkipFixed(mp, tail, tail, hay[pos + tail] as int);
      FirstMatchFrom(hay, mp, pos) == FirstMatchFrom(hay, mp, pos + s)
  {
    var s := SkipFixed(mp, tail, tail, hay[pos + tail] as int);
    SkipWindowHasNoMatch(hay, mp, tail, pos, s);
    FirstMatchFromSkip(hay, mp, pos, pos + s);
  }

  /** Where the pattern does not occur, the loop as written moves on by the
      skip-table entry of the byte under the anchor. */
  lemma HorspoolStep(hay: seq<bv8>, mp: MaskedPattern, tail: nat, pos: nat)
    requires mp.Valid() && tail < |mp.pat| <= |hay| && mp.mask[tail] == 0xFF
    requires pos + |mp.pat| <= |hay| && !MatchAt(hay, mp, pos)
    ensures HorspoolFrom(hay, mp, tail, pos)
      == HorspoolFrom(hay, mp, tail, pos + SkipAsWritten(mp, tail, tail, hay[pos + tail] as int))
  {
  }

  /** Where the pattern does not occur, one skip of the loop as written keeps
      it in step with the leftmost match, given that they agree after the skip. */
  lemma HorspoolSkipAgrees(hay: seq<bv8>, mp: MaskedPattern, tail: nat, pos: nat)
    requires mp.Valid() && tail < |mp.pat| <= |hay| && mp.mask[tail] == 0xFF
    requires forall i :: 0 <= i < tail ==> mp.mask[i] == 0xFF
    requires pos + |mp.pat| <= |hay| && !MatchAt(hay, mp, pos)
    requires var s := SkipAsWritten(mp, tail, tail, hay[pos + tail] as int);
      HorspoolFrom(hay, mp, tail, pos + s) == FirstMatchFrom(hay, mp, pos + s)
    ensures HorspoolFrom(hay, mp, tail, pos) == FirstMatchFrom(hay, mp, pos)
  {
    HorspoolStep(hay, mp, tail, pos);
    SkipAsWrittenIsSafe(hay, mp, tail, pos);
  }

  /** With every byte before the anchor fully known, the skip loop finds the
      leftmost match from `pos` on. */
  lemma {:induction false} HorspoolFindsLeftmost(hay: seq<bv8>, mp: MaskedPattern, tail: nat, pos: nat)
    requires mp.Valid() && tail < |mp.pat| <= |hay| && mp.mask[tail] == 0xFF
    requires forall i :: 0 <= i < tail ==> mp.mask[i] == 0xFF
    decreases |hay| - pos
    ensures HorspoolFrom(hay, mp, tail, pos) == FirstMatchFrom(hay, mp, pos)
  {
    if pos + |mp.pat| > |hay| {
      assert HorspoolFrom(hay, mp, tail, pos) == |hay| == FirstMatchFrom(hay, mp, pos);
    } else if !MatchAt(hay, mp, pos) {
      var s := SkipAsWritten(mp, tail, tail, hay[pos + tail] as int);
      HorspoolFindsLeftmost(hay, mp, tail, pos + s);
      HorspoolSkipAgrees(hay, mp, tail, pos);
    } else {
      HorspoolAtMatch(hay, mp, tail, pos);
    }
  }

  /** Where the pattern occurs, the anchor byte agrees and the loop stops there. */
  lemma HorspoolAtMatch(hay: seq<bv8>, mp: MaskedPattern, tail: nat, pos: nat)
    requires mp.Valid() && tail < |mp.pat| <= |hay| && mp.mask[tail] == 0xFF
    requires pos + |mp.pat| <= |hay| && MatchAt(hay, mp, pos)
    ensures HorspoolFrom(hay, mp, tail, pos) == pos == FirstMatchFrom(hay, mp, pos)
  {
    assert MatchesByteAt(hay, mp, pos, tail);
    ByteMatchesByMask(hay[pos + tail], mp.pat[tail]);
  }

  /** The matcher as written returns the leftmost match whenever no wildcard
      or half-known byte precedes the anchor. */
  lemma FindAsWrittenLeftmost(hay: seq<bv8>, mp: MaskedPattern)
    requires mp.Valid() && ExactBeforeAnchor(mp)
    ensures FindAsWritten(hay, mp) == FirstMatch(hay, mp)
  {
    if 0 < |mp.pat| <= |hay| && Anchor(mp) >= 0 {
      HorspoolFindsLeftmost(hay, mp, Anchor(mp), 0);
    }
  }

  /** The pattern `48 ?? C0` on the bytes `00 48 C0 C0`: the pattern occurs at
      offset 1, but the matcher as written reports "not found". At offset 0 the
      anchor byte C0 agrees, the full compare fails, and the skip for C0 is the
      default 3 because the wildcard before the anchor was never entered. */
  lemma FindAsWrittenMissesMatch()
    ensures var hay: seq<bv8> := [0x00, 0x48, 0xC0, 0xC0];
      var mp := MaskedPattern([0x48, 0x00, 0xC0], [0xFF, 0x00, 0xFF]);
      && MatchAt(hay, mp, 1) && FirstMatch(hay, mp) == 1
      && FindAsWritten(hay, mp) == |hay|
  {
    var hay: seq<bv8> := [0x00, 0x48, 0xC0, 0xC0];
    var mp := MaskedPattern([0x48, 0x00, 0xC0], [0xFF, 0x00, 0xFF]);
    assert Anchor(mp) == 2;
    assert !MatchesByteAt(hay, mp, 0, 0);
    assert !MatchAt(hay, mp, 0);
    assert MatchAt(hay, mp, 1);
    assert FirstMatchFrom(hay, mp, 0) == FirstMatchFrom(hay, mp, 1) == 1;
    assert SkipAsWritten(mp, 2, 2, 0xC0) == SkipAsWritten(mp, 2, 1, 0xC0) == SkipAsWritten(mp, 2, 0, 0xC0) == 3;
    assert HorspoolFrom(hay, mp, 2, 0) == HorspoolFrom(hay, mp, 2, 3) == 4;
  }

  // ----------------------------------------------------------------------
  // The imperative matcher

  /** The anchor search loop: scan the masks from the right for the first 0xFF. */
  method FindTail(mp: MaskedPattern) returns (tail: int)
    requires mp.Valid()
    ensures tail == Anchor(mp)
  {
    tail := -1;
    var i := |mp.mask| - 1;
    while i >= 0
      invariant -1 <= i < |mp.mask|
      invariant forall k :: i < k < |mp.mask| ==> mp.mask[k] != 0xFF
    {
      if mp.mask[i] == 0xFF {
        tail := i;
        break;
      }
      i := i - 1;
    }
    AnchorIsLastFull(mp, tail);
  }

  /** The anchor is the only index that is fully known with no fully-known index after it. */
  lemma AnchorIsLastFull(mp: MaskedPattern, t: int)
    requires mp.Valid() && -1 <= t < |mp.mask|
    requires t >= 0 ==> mp.mask[t] == 0xFF
    requires forall k :: t < k < |mp.mask| ==> mp.mask[k] != 0xFF
    ensures t == Anchor(mp)
  {
  }

  /** The no-anchor branch: test every offset from the left, comparing left to right. */
  method LinearScan(hay: seq<bv8>, mp: MaskedPattern) returns (r: nat)
    requires mp.Valid() && 0 < |mp.pat| <= |hay|
    ensures r == FirstMatch(hay, mp)
  {
    var n, m := |hay|, |mp.pat|;
    var pos := 0;
    while pos <= n - m
      invariant pos <= n - m + 1
      invariant FirstMatchFrom(hay, mp, pos) == FirstMatchFrom(hay, mp, 0)
    {
      var j := 0;
      while j < m && (hay[pos + j] ^ mp.pat[j]) & mp.mask[j] == 0
        invariant 0 <= j <= m
        invariant forall k: nat :: k < j ==> MatchesByteAt(hay, mp, pos, k)
      {
        j := j + 1;
      }
      if j == m {
        return pos;
      }
      assert !MatchesByteAt(hay, mp, pos, j);
      pos := pos + 1;
    }
    return n;
  }

  /** The full compare of the anchored branch, right to left. */
  method MatchesFromRight(hay: seq<bv8>, mp: MaskedPattern, pos: nat) returns (b: bool)
    requires mp.Valid() && pos + |mp.pat| <= |hay|
    ensures b == MatchAt(hay, mp, pos)
  {
    var j := |mp.pat| - 1;
    while j >= 0 && (hay[pos + j] ^ mp.pat[j]) & mp.mask[j] == 0
      invariant -1 <= j < |mp.pat|
      invariant forall k: nat :: j < k < |mp.pat| ==> MatchesByteAt(hay, mp, pos, k)
    {
      j := j - 1;
    }
    b := j < 0;
    if !b {
      assert !MatchesByteAt(hay, mp, pos, j);
    }
  }

  /** The skip table as the source fills it. */
  method BuildShiftAsWritten(mp: MaskedPattern, tail: nat) returns (shift: array<nat>)
    requires mp.Valid() && tail < |mp.pat|
    ensures fresh(shift) && shift.Length == 256
    ensures forall c :: 0 <= c < 256 ==> shift[c] == SkipAsWritten(mp, tail, tail, c)
  {
    shift := new nat[256](_ => tail + 1);
    var i := 0;
    while i < tail
      invariant 0 <= i <= tail
      invariant forall c :: 0 <= c < 256 ==> shift[c] == SkipAsWritten(mp, tail, i, c)
    {
      if mp.mask[i] == 0xFF {
        shift[mp.pat[i] as int] := tail - i;
      }
      i := i + 1;
    }
  }

  /** The corrected skip table: a byte that is not fully known refills every entry with `tail - i`. */
  method BuildShiftFixed(mp: MaskedPattern, tail: nat) returns (shift: array<nat>)
    requires mp.Valid() && tail < |mp.pat|
    ensures fresh(shift) && shift.Length == 256
    ensures forall c :: 0 <= c < 256 ==> shift[c] == SkipFixed(mp, tail, tail, c)
  {
    shift := new nat[256](_ => tail + 1);
    var i := 0;
    while i < tail
      invariant 0 <= i <= tail
      invariant forall c :: 0 <= c < 256 ==> shift[c] == SkipFixed(mp, tail, i, c)
    {
      if mp.mask[i] == 0xFF {
        shift[mp.pat[i] as int] := tail - i;
      } else {
        var c := 0;
        while c < 256
          invariant 0 <= c <= 256
          invariant forall c' :: 0 <= c' < c ==> shift[c'] == tail - i
          invariant forall c' :: c <= c' < 256 ==> shift[c'] == SkipFixed(mp, tail, i, c')
        {
          shift[c] := tail - i;
          c := c + 1;
        }
      }
      i := i + 1;
    }
  }

  /** `find_horspool_masked` as written. */
  method FindHorspoolMasked(hay: seq<bv8>, mp: MaskedPattern) returns (r: nat)
    requires mp.Valid()
    ensures r == FindAsWritten(hay, mp)
  {
    var n, m := |hay|, |mp.pat|;
    if m == 0 || n < m {
      return n;
    }
    var t := FindTail(mp);
    if t < 0 {
      r := LinearScan(hay, mp);
      return;
    }
    var tail: nat := t;
    var shift := BuildShiftAsWritten(mp, tail);
    var pos := 0;
    while pos <= n - m
      invariant pos <= n
      invariant forall c :: 0 <= c < 256 ==> shift[c] == SkipAsWritten(mp, tail, tail, c)
      invariant HorspoolFrom(hay, mp, tail, pos) == FindAsWritten(hay, mp)
      decreases n - pos
    {
      var h := hay[pos + tail];
      if h == mp.pat[tail] {
        var ok := MatchesFromRight(hay, mp, pos);
        if ok {
          return pos;
        }
      }
      pos := pos + shift[h as int];
    }
    return n;
  }

  /** The matcher with the corrected skip table: always the leftmost match. */
  method FindHorspoolMaskedFixed(hay: seq<bv8>, mp: MaskedPattern) returns (r: nat)
    requires mp.Valid()
    ensures r == FirstMatch(hay, mp)
  {
    var n, m := |hay|, |mp.pat|;
    if m == 0 || n < m {
      return n;
    }
    var t := FindTail(mp);
    if t < 0 {
      r := LinearScan(hay, mp);
      return;
    }
    var tail: nat := t;
    var shift := BuildShiftFixed(mp, tail);
    var pos := 0;
    while pos <= n - m
      invariant pos <= n
      invariant forall c :: 0 <= c < 256 ==> shift[c] == SkipFixed(mp, tail, tail, c)
      invariant FirstMatchFrom(hay, mp, pos) == FirstMatch(hay, mp)
      decreases n - pos
    {
      var h := hay[pos + tail];
      if h == mp.pat[tail] {
        var ok := MatchesFromRight(hay, mp, pos);
        if ok {
          return pos;
        }
      }
      if h != mp.pat[tail] {
        AnchorMismatch(hay, mp, tail, pos);
      }
      SkipFixedIsSafe(hay, mp, tail, pos);
      pos := pos + shift[h as int];
    }
    return n;
  }
}
