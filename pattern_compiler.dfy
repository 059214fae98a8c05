/** The ASCII pattern compiler: a whitespace-separated list of hex tokens with
    `?` nibble wildcards becomes two parallel byte vectors, the pattern bytes
    and the per-byte masks of significant bits. */
module PatternCompiler {
  import opened Wrappers
  import opened Ascii

  /** One compiled token: the byte value and the mask of significant bits. */
  datatype MaskedByte = MaskedByte(pat: bv8, mask: bv8)

  /** The compiled pattern. `pat` and `mask` are the two vectors that the
      compiler fills; the pattern length is their common length. */
  datatype MaskedPattern = MaskedPattern(pat: seq<bv8>, mask: seq<bv8>) {
    predicate Valid() {
      |pat| == |mask|
    }
  }

  /** The three ways compilation throws: a token of the wrong length, a
      character that is neither a hex digit nor `?`, and an input without tokens. */
  datatype CompileError = BadToken | BadHex | EmptyPattern

  /** The four masks a token can produce. */
  predicate IsNibbleMask(m: bv8) {
    m == 0xFF || m == 0xF0 || m == 0x0F || m == 0x00
  }

  predicate IsHexDigit(c: char) {
    '0' <= c <= '9' || 'A' <= c <= 'F' || 'a' <= c <= 'f'
  }

  /** Value of a hex digit, either case; -1 for any other character. */
  function HexVal(c: char): (v: int)
    ensures -1 <= v < 16
    ensures v == -1 <==> !IsHexDigit(c)
    ensures '0' <= c <= '9' ==> v == c as int - '0' as int
    ensures 'A' <= c <= 'F' ==> v == c as int - 'A' as int + 10
    ensures 'a' <= c <= 'f' ==> v == c as int - 'a' as int + 10
  {
    if '0' <= c <= '9' then c as int - '0' as int
    else
      var u := ToUpper(c);
      if 'A' <= u <= 'F' then 10 + (u as int - 'A' as int) else -1
  }

  /** Hex digits are read case-insensitively. */
  lemma HexValIgnoresCase(c: char)
    ensures HexVal(ToUpper(c)) == HexVal(c)
  {
  }

  /** A nibble position of a two-character token is acceptable. */
  predicate NibbleOk(c: char) {
    c == '?' || HexVal(c) >= 0
  }

  /** High nibble: `?` leaves both the value and the mask bits clear. */
  function HighNibble(c: char): (r: MaskedByte)
    requires NibbleOk(c)
    ensures c == '?' ==> r == MaskedByte(0, 0)
    ensures c != '?' ==> r.mask == 0xF0 && r.pat & 0x0F == 0 && (r.pat >> 4) as int == HexVal(c)
  {
    if c == '?' then MaskedByte(0, 0)
    else
      var v := HexVal(c);
      NibbleShift(v as bv8);
      Conv(v);
      MaskedByte((v as bv8) << 4, 0xF0)
  }

  /** Low nibble: `?` leaves both the value and the mask bits clear. */
  function LowNibble(c: char): (r: MaskedByte)
    requires NibbleOk(c)
    ensures c == '?' ==> r == MaskedByte(0, 0)
    ensures c != '?' ==> r.mask == 0x0F && r.pat & 0xF0 == 0 && (r.pat & 0x0F) as int == HexVal(c)
  {
    if c == '?' then MaskedByte(0, 0)
    else
      var v := HexVal(c);
      NibbleShift(v as bv8);
      Conv(v);
      MaskedByte((v as bv8) & 0x0F, 0x0F)
  }

  lemma NibbleShift(v: bv8)
    requires v < 16
    ensures (v << 4) & 0x0F == 0 && (v << 4) >> 4 == v
    ensures (v & 0x0F) & 0xF0 == 0 && (v & 0x0F) & 0x0F == v
  {
  }

  lemma Conv(x: int)
    requires 0 <= x < 16
    ensures x as bv8 < 16 && (x as bv8) as int == x
  {
  }

  /** Joining a high and a low nibble keeps each one readable on its own. */
  lemma NibbleJoin(hi: MaskedByte, lo: MaskedByte)
    requires hi.pat & 0x0F == 0 && hi.mask & 0x0F == 0 && hi.pat & !hi.mask == 0
    requires lo.pat & 0xF0 == 0 && lo.mask & 0xF0 == 0 && lo.pat & !lo.mask == 0
    requires hi.mask == 0 || hi.mask == 0xF0
    requires lo.mask == 0 || lo.mask == 0x0F
    ensures (hi.pat | lo.pat) >> 4 == hi.pat >> 4 && (hi.pat | lo.pat) & 0x0F == lo.pat & 0x0F
    ensures (hi.mask | lo.mask) & 0xF0 == hi.mask && (hi.mask | lo.mask) & 0x0F == lo.mask
    ensures (hi.pat | lo.pat) & !(hi.mask | lo.mask) == 0
    ensures IsNibbleMask(hi.mask | lo.mask)
  {
  }

  /** One token to one masked byte, or the error the source throws. */
  function PushByteToken(tok: string): (r: Result<MaskedByte, CompileError>)
    ensures tok == "?" || tok == "??" ==> r == Success(MaskedByte(0, 0))
    ensures r.Success? <==> tok == "?" || (|tok| == 2 && NibbleOk(tok[0]) && NibbleOk(tok[1]))
    ensures r.Failure? ==> r.error == (if |tok| == 2 then BadHex else BadToken)
  {
    if tok == "?" || tok == "??" then Success(MaskedByte(0, 0))
    else if |tok| != 2 then Failure(BadToken)
    else if !NibbleOk(tok[0]) || !NibbleOk(tok[1]) then Failure(BadHex)
    else
      var hi, lo := HighNibble(tok[0]), LowNibble(tok[1]);
      NibbleJoin(hi, lo);
      Success(MaskedByte(hi.pat | lo.pat, hi.mask | lo.mask))
  }

  /** What a compiled token means: the mask is one of the four nibble masks,
      a nibble is significant exactly when its character is not `?`, the byte
      has no bits outside its mask, and each significant nibble holds the
      value of its hex digit. */
  lemma PushByteTokenNibbles(tok: string)
    requires PushByteToken(tok).Success?
    ensures var b := PushByteToken(tok).value;
      && IsNibbleMask(b.mask) && b.pat & !b.mask == 0
      && (|tok| == 2 ==>
        && (b.mask & 0xF0 == if tok[0] == '?' then 0 else 0xF0)
        && (b.mask & 0x0F == if tok[1] == '?' then 0 else 0x0F)
        && (tok[0] != '?' ==> (b.pat >> 4) as int == HexVal(tok[0]))
        && (tok[1] != '?' ==> (b.pat & 0x0F) as int == HexVal(tok[1])))
  {
    if tok != "?" && tok != "??" {
      NibbleJoin(HighNibble(tok[0]), LowNibble(tok[1]));
    }
  }

  /** A nibble character and its upper-case form give the same nibble. */
  lemma NibbleIgnoresCase(c: char)
    ensures NibbleOk(ToUpper(c)) == NibbleOk(c)
    ensures NibbleOk(c) ==> HighNibble(ToUpper(c)) == HighNibble(c) && LowNibble(ToUpper(c)) == LowNibble(c)
  {
    HexValIgnoresCase(c);
  }

  /** Tokens are case-insensitive: upper-casing a token never changes what it compiles to. */
  lemma PushByteTokenIgnoresCase(tok: string)
    ensures PushByteToken(Upper(tok)) == PushByteToken(tok)
  {
    var u := Upper(tok);
    if |tok| == 2 {
      assert u[0] == ToUpper(tok[0]) && u[1] == ToUpper(tok[1]);
      NibbleIgnoresCase(tok[0]);
      NibbleIgnoresCase(tok[1]);
      assert (u == "??") == (tok == "??");
    } else if |tok| == 1 {
      assert (u == "?") == (tok == "?");
    }
  }

  // ----------------------------------------------------------------------
  // Tokenizer

  /** The end of the run of non-space characters that starts at `i`. */
  function WordEnd(s: string, i: nat): (j: nat)
    requires i <= |s|
    decreases |s| - i
    ensures i <= j <= |s|
    ensures forall k :: i <= k < j ==> !IsSpace(s[k])
    ensures j < |s| ==> IsSpace(s[j])
  {
    if i == |s| || IsSpace(s[i]) then i else WordEnd(s, i + 1)
  }

  /** A run of non-space characters ended by a space or by the end of the input is the word at `i`. */
  lemma {:induction false} WordEndAt(s: string, i: nat, j: nat)
    requires i <= j <= |s|
    requires forall k :: i <= k < j ==> !IsSpace(s[k])
    requires j == |s| || IsSpace(s[j])
    ensures WordEnd(s, i) == j
    decreases j - i
  {
    if i < j {
      WordEndAt(s, i + 1, j);
    }
  }

  /** The whitespace-separated tokens of `s` from index `i` on, in order. */
  function TokensFrom(s: string, i: nat): (toks: seq<string>)
    requires i <= |s|
    decreases |s| - i
    ensures toks == [] <==> forall k :: i <= k < |s| ==> IsSpace(s[k])
  {
    if i == |s| then []
    else if IsSpace(s[i]) then TokensFrom(s, i + 1)
    else [s[i..WordEnd(s, i)]] + TokensFrom(s, WordEnd(s, i))
  }

  /** The whitespace-separated tokens of `s`, in order. */
  function Tokens(s: string): (toks: seq<string>)
    ensures toks == [] <==> forall i :: 0 <= i < |s| ==> IsSpace(s[i])
  {
    TokensFrom(s, 0)
  }

  /** Every token is a non-empty word without whitespace. */
  lemma {:induction false} TokensAreWords(s: string, i: nat)
    requires i <= |s|
    decreases |s| - i
    ensures forall k :: 0 <= k < |TokensFrom(s, i)| ==> |TokensFrom(s, i)[k]| > 0
    ensures forall k, c :: 0 <= k < |TokensFrom(s, i)| && 0 <= c < |TokensFrom(s, i)[k]| ==>
      !IsSpace(TokensFrom(s, i)[k][c])
  {
    if i == |s| {
    } else if IsSpace(s[i]) {
      TokensAreWords(s, i + 1);
    } else {
      var j := WordEnd(s, i);
      var rest := TokensFrom(s, j);
      TokensAreWords(s, j);
      assert forall k :: 1 <= k < |TokensFrom(s, i)| ==> TokensFrom(s, i)[k] == rest[k - 1];
    }
  }

  /** Where each token of `TokensFrom(s, i)` lies in `s`: the half-open
      index range of the run of non-space characters it was cut from. */
  function TokenSpans(s: string, i: nat): (spans: seq<(nat, nat)>)
    requires i <= |s|
    decreases |s| - i
    ensures forall k :: 0 <= k < |spans| ==> i <= spans[k].0 < spans[k].1 <= |s|
  {
    if i == |s| then []
    else if IsSpace(s[i]) then TokenSpans(s, i + 1)
    else [(i, WordEnd(s, i))] + TokenSpans(s, WordEnd(s, i))
  }

  /** Token `k` is the text of span `k`. */
  lemma {:induction false} TokensAreSpans(s: string, i: nat)
    requires i <= |s|
    decreases |s| - i
    ensures |TokenSpans(s, i)| == |TokensFrom(s, i)|
    ensures forall k :: 0 <= k < |TokenSpans(s, i)| ==>
      TokensFrom(s, i)[k] == s[TokenSpans(s, i)[k].0..TokenSpans(s, i)[k].1]
  {
    if i < |s| {
      if IsSpace(s[i]) {
        TokensAreSpans(s, i + 1);
      } else {
        var j := WordEnd(s, i);
        TokensAreSpans(s, j);
        assert TokensFrom(s, i) == [s[i..j]] + TokensFrom(s, j);
        assert TokenSpans(s, i) == [(i, j)] + TokenSpans(s, j);
      }
    }
  }

  /** No span holds a space. */
  lemma {:induction false} SpansHoldNoSpace(s: string, i: nat)
    requires i <= |s|
    decreases |s| - i
    ensures forall k, c :: 0 <= k < |TokenSpans(s, i)| && TokenSpans(s, i)[k].0 <= c < TokenSpans(s, i)[k].1 ==>
      !IsSpace(s[c])
  {
    if i < |s| {
      if IsSpace(s[i]) {
        SpansHoldNoSpace(s, i + 1);
      } else {
        var j := WordEnd(s, i);
        SpansHoldNoSpace(s, j);
        var spans, rest := TokenSpans(s, i), TokenSpans(s, j);
        assert spans == [(i, j)] + rest;
        assert forall k :: 0 < k < |spans| ==> spans[k] == rest[k - 1];
      }
    }
  }

  /** Each span is a maximal run: a space or the start of the scan just
      before it, a space or the end of the input just after it. */
  lemma {:induction false} SpansAreMaximal(s: string, i: nat)
    requires i <= |s|
    decreases |s| - i
    ensures forall k :: 0 <= k < |TokenSpans(s, i)| ==>
      && (TokenSpans(s, i)[k].0 == i || IsSpace(s[TokenSpans(s, i)[k].0 - 1]))
      && (TokenSpans(s, i)[k].1 == |s| || IsSpace(s[TokenSpans(s, i)[k].1]))
  {
    if i < |s| {
      if IsSpace(s[i]) {
        SpansAreMaximal(s, i + 1);
      } else {
        var j := WordEnd(s, i);
        SpansAreMaximal(s, j);
        var spans, rest := TokenSpans(s, i), TokenSpans(s, j);
        assert spans == [(i, j)] + rest;
        assert forall k :: 0 < k < |spans| ==> spans[k] == rest[k - 1];
      }
    }
  }

  /** The spans come in input order, with space between consecutive ones. */
  lemma {:induction false} SpansInOrder(s: string, i: nat)
    requires i <= |s|
    decreases |s| - i
    ensures forall k :: 0 <= k < |TokenSpans(s, i)| - 1 ==> TokenSpans(s, i)[k].1 < TokenSpans(s, i)[k + 1].0
  {
    if i < |s| {
      if IsSpace(s[i]) {
        SpansInOrder(s, i + 1);
      } else {
        var j := WordEnd(s, i);
        SpansInOrder(s, j);
        var spans, rest := TokenSpans(s, i), TokenSpans(s, j);
        assert spans == [(i, j)] + rest;
        assert forall k :: 0 < k < |spans| ==> spans[k] == rest[k - 1];
        if 0 < |rest| {
          SpansHoldNoSpace(s, j);
          assert rest[0].0 < rest[0].1;
          assert !IsSpace(s[rest[0].0]);
        }
      }
    }
  }

  /** Every non-space character from `i` on lies in some span. */
  lemma {:induction false} SpansCoverNonSpace(s: string, i: nat, c: nat)
    requires i <= c < |s| && !IsSpace(s[c])
    decreases |s| - i
    ensures exists k :: 0 <= k < |TokenSpans(s, i)| && TokenSpans(s, i)[k].0 <= c < TokenSpans(s, i)[k].1
  {
    var spans := TokenSpans(s, i);
    if IsSpace(s[i]) {
      SpansCoverNonSpace(s, i + 1, c);
    } else {
      var j := WordEnd(s, i);
      assert spans == [(i, j)] + TokenSpans(s, j);
      if c < j {
        assert spans[0].0 <= c < spans[0].1;
      } else {
        SpansCoverNonSpace(s, j, c);
        var k :| 0 <= k < |TokenSpans(s, j)| && TokenSpans(s, j)[k].0 <= c < TokenSpans(s, j)[k].1;
        assert spans[k + 1] == TokenSpans(s, j)[k];
      }
    }
  }

  /** The non-space characters of `s`, in order. */
  function NonSpace(s: string): string {
    if s == [] then [] else (if IsSpace(s[0]) then [] else [s[0]]) + NonSpace(s[1..])
  }

  function Concat(toks: seq<string>): string {
    if toks == [] then [] else toks[0] + Concat(toks[1..])
  }

  lemma {:induction false} NonSpaceAppend(a: string, b: string)
    ensures NonSpace(a + b) == NonSpace(a) + NonSpace(b)
  {
    if a == [] {
      assert a + b == b;
    } else {
      assert (a + b)[1..] == a[1..] + b;
      NonSpaceAppend(a[1..], b);
    }
  }

  lemma {:induction false} NonSpaceOfWord(w: string)
    requires forall i :: 0 <= i < |w| ==> !IsSpace(w[i])
    ensures NonSpace(w) == w
  {
    if w != [] {
      NonSpaceOfWord(w[1..]);
    }
  }

  /** Splitting loses nothing but whitespace: the tokens, joined, are exactly
      the non-space characters of the input. */
  lemma {:induction false} TokensCoverInput(s: string, i: nat)
    requires i <= |s|
    decreases |s| - i
    ensures Concat(TokensFrom(s, i)) == NonSpace(s[i..])
  {
    if i == |s| {
    } else if IsSpace(s[i]) {
      TokensCoverInput(s, i + 1);
      assert s[i..][1..] == s[i + 1..];
    } else {
      var j := WordEnd(s, i);
      TokensCoverInput(s, j);
      assert s[i..] == s[i..j] + s[j..];
      NonSpaceAppend(s[i..j], s[j..]);
      NonSpaceOfWord(s[i..j]);
      assert ([s[i..j]] + TokensFrom(s, j))[1..] == TokensFrom(s, j);
    }
  }

  /** Upper-casing moves no word boundary. */
  lemma {:induction false} WordEndOfUpper(s: string, i: nat)
    requires i <= |s|
    decreases |s| - i
    ensures WordEnd(Upper(s), i) == WordEnd(s, i)
  {
    if i < |s| {
      ToUpperKeepsSpace(s[i]);
      WordEndOfUpper(s, i + 1);
    }
  }

  /** Tokens of an upper-cased string are the upper-cased tokens. */
  lemma {:induction false} TokensOfUpper(s: string, i: nat)
    requires i <= |s|
    decreases |s| - i
    ensures |TokensFrom(Upper(s), i)| == |TokensFrom(s, i)|
    ensures forall k :: 0 <= k < |TokensFrom(s, i)| ==> TokensFrom(Upper(s), i)[k] == Upper(TokensFrom(s, i)[k])
  {
    var us := Upper(s);
    if i < |s| {
      ToUpperKeepsSpace(s[i]);
      assert IsSpace(us[i]) == IsSpace(s[i]);
      if IsSpace(s[i]) {
        assert TokensFrom(us, i) == TokensFrom(us, i + 1);
        TokensOfUpper(s, i + 1);
      } else {
        var j := WordEnd(s, i);
        WordEndOfUpper(s, i);
        UpperSlice(s, i, j);
        assert TokensFrom(us, i) == [Upper(s[i..j])] + TokensFrom(us, j);
        assert TokensFrom(s, i) == [s[i..j]] + TokensFrom(s, j);
        TokensOfUpper(s, j);
      }
    }
  }

  // ----------------------------------------------------------------------
  // Compilation

  /** What `push_byte_token` makes of each upper-cased token, in input order. */
  function TokenBytes(toks: seq<string>): (bytes: seq<Result<MaskedByte, CompileError>>)
    ensures |bytes| == |toks|
    ensures forall k :: 0 <= k < |toks| ==> bytes[k] == PushByteToken(Upper(toks[k]))
    ensures forall k :: 0 <= k < |bytes| ==> bytes[k] != Failure(EmptyPattern)
  {
    seq(|toks|, k requires 0 <= k < |toks| => PushByteToken(Upper(toks[k])))
  }

  /** Appends the first `n` compiled tokens to the two output vectors, in
      order, stopping at the first token that does not compile. */
  function Assemble(bytes: seq<Result<MaskedByte, CompileError>>, n: nat): (r: Result<MaskedPattern, CompileError>)
    requires n <= |bytes|
    ensures r.Success? ==> r.value.Valid() && |r.value.pat| == n
  {
    if n == 0 then Success(MaskedPattern([], []))
    else
      var done := Assemble(bytes, n - 1);
      if done.Failure? then done
      else if bytes[n - 1].Failure? then Failure(bytes[n - 1].error)
      else Success(MaskedPattern(done.value.pat + [bytes[n - 1].value.pat], done.value.mask + [bytes[n - 1].value.mask]))
  }

  /** The output succeeds exactly when every token compiles; it then holds
      each token's byte and mask at the token's position; an error always
      comes from one of the tokens. */
  lemma {:induction false} AssembleMeaning(bytes: seq<Result<MaskedByte, CompileError>>, n: nat)
    requires n <= |bytes|
    ensures Assemble(bytes, n).Success? <==> forall k :: 0 <= k < n ==> bytes[k].Success?
    ensures Assemble(bytes, n).Success? ==> forall k :: 0 <= k < n ==>
      bytes[k] == Success(MaskedByte(Assemble(bytes, n).value.pat[k], Assemble(bytes, n).value.mask[k]))
    ensures (forall k :: 0 <= k < n ==> bytes[k] != Failure(EmptyPattern)) ==> Assemble(bytes, n) != Failure(EmptyPattern)
  {
    if n > 0 {
      AssembleMeaning(bytes, n - 1);
      var done := Assemble(bytes, n - 1);
      if done.Success? && bytes[n - 1].Success? {
        var r := Assemble(bytes, n).value;
        assert forall k :: 0 <= k < n - 1 ==> r.pat[k] == done.value.pat[k] && r.mask[k] == done.value.mask[k];
      }
    }
  }

  /** The error reported is the one of the first token that does not compile. */
  lemma {:induction false} AssembleFirstError(bytes: seq<Result<MaskedByte, CompileError>>, n: nat) returns (k: nat)
    requires n <= |bytes| && Assemble(bytes, n).Failure?
    ensures k < n && bytes[k] == Failure(Assemble(bytes, n).error)
    ensures forall i :: 0 <= i < k ==> bytes[i].Success?
  {
    if Assemble(bytes, n - 1).Failure? {
      k := AssembleFirstError(bytes, n - 1);
    } else {
      AssembleMeaning(bytes, n - 1);
      k := n - 1;
    }
  }

  /** Once a prefix of the tokens fails, nothing after it is looked at. */
  lemma {:induction false} AssembleStopsAtFailure(bytes: seq<Result<MaskedByte, CompileError>>, m: nat, n: nat)
    requires m <= n <= |bytes|
    requires Assemble(bytes, m).Failure?
    ensures Assemble(bytes, n) == Assemble(bytes, m)
    decreases n
  {
    if m < n {
      AssembleStopsAtFailure(bytes, m, n - 1);
    }
  }

  /** The compiler: split into tokens, compile each one, reject an input without tokens. */
  function Compile(ascii: string): (r: Result<MaskedPattern, CompileError>)
    ensures r == Failure(EmptyPattern) <==> forall i :: 0 <= i < |ascii| ==> IsSpace(ascii[i])
    ensures r.Success? ==> r.value.Valid() && |r.value.pat| == |Tokens(ascii)| >= 1
  {
    var toks := Tokens(ascii);
    AssembleMeaning(TokenBytes(toks), |toks|);
    var mp :- Assemble(TokenBytes(toks), |toks|);
    if |mp.pat| == 0 then Failure(EmptyPattern) else Success(mp)
  }

  /** A compiled pattern is in input order, token by token, and every byte
      carries one of the four nibble masks and no bits outside it. */
  lemma CompileTokenByToken(ascii: string)
    requires Compile(ascii).Success?
    ensures var mp := Compile(ascii).value; var toks := Tokens(ascii);
      forall k :: 0 <= k < |toks| ==>
        && PushByteToken(Upper(toks[k])) == Success(MaskedByte(mp.pat[k], mp.mask[k]))
        && IsNibbleMask(mp.mask[k]) && mp.pat[k] & !mp.mask[k] == 0
  {
    var toks := Tokens(ascii);
    var bytes := TokenBytes(toks);
    AssembleMeaning(bytes, |toks|);
    var mp := Compile(ascii).value;
    assert mp == Assemble(bytes, |toks|).value;
    forall k | 0 <= k < |toks|
      ensures PushByteToken(Upper(toks[k])) == Success(MaskedByte(mp.pat[k], mp.mask[k]))
      ensures IsNibbleMask(mp.mask[k]) && mp.pat[k] & !mp.mask[k] == 0
    {
      assert bytes[k] == PushByteToken(Upper(toks[k]));
      PushByteTokenNibbles(Upper(toks[k]));
    }
  }

  /** The compiler is case-insensitive. */
  lemma CompileIgnoresCase(ascii: string)
    ensures Compile(Upper(ascii)) == Compile(ascii)
  {
    TokensOfUpper(ascii, 0);
    var t, tu := Tokens(ascii), Tokens(Upper(ascii));
    forall k | 0 <= k < |t| ensures TokenBytes(tu)[k] == TokenBytes(t)[k] {
      UpperIdempotent(t[k]);
    }
    assert TokenBytes(tu) == TokenBytes(t);
  }

  // ----------------------------------------------------------------------
  // The tokenizer loop

  /** One step of the tokenizer loop: the word `ascii[i..j]` is token `n`. */
  lemma NextToken(ascii: string, toks: seq<string>, n: nat, i: nat, j: nat)
    requires i < j <= |ascii|
    requires forall k :: i <= k < j ==> !IsSpace(ascii[k])
    requires j == |ascii| || IsSpace(ascii[j])
    requires n <= |toks| && toks[n..] == TokensFrom(ascii, i)
    ensures n < |toks| && toks[n] == ascii[i..j] && toks[n + 1..] == TokensFrom(ascii, j)
  {
    WordEndAt(ascii, i, j);
    assert toks[n..] == [ascii[i..j]] + TokensFrom(ascii, j);
    assert toks[n + 1..] == toks[n..][1..];
  }

  /** One more token that compiles appends its byte and mask. */
  lemma AssembleStep(bytes: seq<Result<MaskedByte, CompileError>>, n: nat, pat: seq<bv8>, mask: seq<bv8>)
    requires n < |bytes| && bytes[n].Success?
    requires Assemble(bytes, n) == Success(MaskedPattern(pat, mask))
    ensures Assemble(bytes, n + 1) == Success(MaskedPattern(pat + [bytes[n].value.pat], mask + [bytes[n].value.mask]))
  {
  }

  /** A token that does not compile ends compilation with its error. */
  lemma CompileStepFails(ascii: string, n: nat)
    requires n < |Tokens(ascii)|
    requires Assemble(TokenBytes(Tokens(ascii)), n).Success?
    requires TokenBytes(Tokens(ascii))[n].Failure?
    ensures Compile(ascii) == Failure(TokenBytes(Tokens(ascii))[n].error)
  {
    AssembleFailsAt(TokenBytes(Tokens(ascii)), n, |Tokens(ascii)|);
    CompileFailsWithAssembly(ascii);
  }

  /** The first failing byte's error is the assembly's error. */
  lemma AssembleFailsAt(bytes: seq<Result<MaskedByte, CompileError>>, n: nat, len: nat)
    requires n < len <= |bytes|
    requires Assemble(bytes, n).Success? && bytes[n].Failure?
    ensures Assemble(bytes, len) == Failure(bytes[n].error)
  {
    assert Assemble(bytes, n + 1) == Failure(bytes[n].error);
    AssembleStopsAtFailure(bytes, n + 1, len);
  }

  /** A failed assembly is the compiler's failure. */
  lemma CompileFailsWithAssembly(ascii: string)
    requires Assemble(TokenBytes(Tokens(ascii)), |Tokens(ascii)|).Failure?
    ensures Compile(ascii) == Assemble(TokenBytes(Tokens(ascii)), |Tokens(ascii)|)
  {
  }

  /** After the last token the output holds every token. */
  lemma CompileDone(ascii: string, n: nat)
    requires n <= |Tokens(ascii)| && Tokens(ascii)[n..] == []
    requires Assemble(TokenBytes(Tokens(ascii)), n).Success?
    ensures Compile(ascii) == (var mp := Assemble(TokenBytes(Tokens(ascii)), n).value;
      if |mp.pat| == 0 then Failure(EmptyPattern) else Success(mp))
  {
    assert n == |Tokens(ascii)|;
  }

  /** The whitespace-skipping loop: from `i`, past every space. */
  method SkipSpace(ascii: string, i0: nat) returns (i: nat)
    requires i0 <= |ascii|
    ensures i0 <= i <= |ascii|
    ensures TokensFrom(ascii, i) == TokensFrom(ascii, i0)
    ensures i < |ascii| ==> !IsSpace(ascii[i])
  {
    i := i0;
    while i < |ascii| && IsSpace(ascii[i])
      invariant i0 <= i <= |ascii|
      invariant TokensFrom(ascii, i) == TokensFrom(ascii, i0)
    {
      i := i + 1;
    }
  }

  /** The word-scanning loop: from `i` up to the next space or the end. */
  method ScanWord(ascii: string, i: nat) returns (j: nat)
    requires i <= |ascii|
    ensures j == WordEnd(ascii, i)
  {
    j := i;
    while j < |ascii| && !IsSpace(ascii[j])
      invariant i <= j <= |ascii|
      invariant forall k :: i <= k < j ==> !IsSpace(ascii[k])
    {
      j := j + 1;
    }
    WordEndAt(ascii, i, j);
  }

  /** `compile_ascii_pattern`: walks the input once, skipping whitespace, cutting
      out each token, upper-casing it and appending its byte and mask. */
  method CompileAsciiPattern(ascii: string) returns (r: Result<MaskedPattern, CompileError>)
    ensures r == Compile(ascii)
  {
    var patOut: seq<bv8> := [];
    var maskOut: seq<bv8> := [];
    ghost var toks := Tokens(ascii);
    ghost var bytes := TokenBytes(toks);
    ghost var n := 0;
    var i := 0;
    while i < |ascii|
      invariant i <= |ascii| && n <= |toks|
      invariant toks[n..] == TokensFrom(ascii, i)
      invariant Assemble(bytes, n) == Success(MaskedPattern(patOut, maskOut))
      decreases |ascii| - i
    {
      i := SkipSpace(ascii, i);
      if i >= |ascii| {
        break;
      }
      var j := ScanWord(ascii, i);
      var tok := Upper(ascii[i..j]);
      var b := PushByteToken(tok);
      NextToken(ascii, toks, n, i, j);
      assert b == bytes[n];
      if b.Failure? {
        CompileStepFails(ascii, n);
        return Failure(b.error);
      }
      AssembleStep(bytes, n, patOut, maskOut);
      patOut := patOut + [b.value.pat];
      maskOut := maskOut + [b.value.mask];
      n := n + 1;
      i := j;
    }
    CompileDone(ascii, n);
    if |patOut| == 0 {
      return Failure(EmptyPattern);
    }
    return Success(MaskedPattern(patOut, maskOut));
  }
}
