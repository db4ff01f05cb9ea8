/**
 * Transip::Soap.urlencode: `URI.encode_www_form_component` followed by three
 * rewrites (`+` to `%20`, `%7E` to `~`, `*` to `%2A`). The net effect is the
 * percent-encoding of section 2.3 of RFC 3986: the unreserved characters stay
 * literal, every other UTF-8 byte becomes an uppercase `%XX` triplet.
 */
module UrlEncoding {
  import opened Wrappers

  type Byte = b: int | 0 <= b < 256

  /** The UTF-8 encoding of one character. */
  function Utf8(c: char): (r: seq<Byte>)
    ensures 1 <= |r| <= 4
    ensures c as int < 0x80 ==> r == [c as int]
    ensures c as int >= 0x80 ==> forall i :: 0 <= i < |r| ==> r[i] >= 0x80
  {
    var n := c as int;
    if n < 0x80 then [n]
    else if n < 0x800 then [0xC0 + n / 0x40, 0x80 + n % 0x40]
    else if n < 0x1_0000 then [0xE0 + n / 0x1000, 0x80 + (n / 0x40) % 0x40, 0x80 + n % 0x40]
    else [0xF0 + n / 0x4_0000, 0x80 + (n / 0x1000) % 0x40, 0x80 + (n / 0x40) % 0x40, 0x80 + n % 0x40]
  }

  /** The UTF-8 bytes of a string. */
  function Utf8String(s: string): seq<Byte>
  {
    if s == [] then [] else Utf8(s[0]) + Utf8String(s[1..])
  }

  predicate IsAlnum(c: char) { 'A' <= c <= 'Z' || 'a' <= c <= 'z' || '0' <= c <= '9' }

  /** The RFC 3986 unreserved set: ALPHA / DIGIT / "-" / "." / "_" / "~". */
  predicate Unreserved(c: char) { IsAlnum(c) || c == '-' || c == '.' || c == '_' || c == '~' }

  /** The characters encode_www_form_component leaves alone. */
  predicate FormSafe(c: char) { IsAlnum(c) || c == '*' || c == '-' || c == '.' || c == '_' }

  function HexDigit(d: nat): (c: char)
    requires d < 16
    ensures IsHexDigit(c) && HexValue(c) == d
  {
    if d < 10 then ('0' as int + d) as char else ('A' as int + d - 10) as char
  }

  /** Uppercase hexadecimal digits, as Ruby's percent-encoding writes them. */
  predicate IsHexDigit(c: char) { '0' <= c <= '9' || 'A' <= c <= 'F' }

  function HexValue(c: char): nat
    requires IsHexDigit(c)
  {
    if c <= '9' then c as int - '0' as int else c as int - 'A' as int + 10
  }

  // ------------------------------------------------------------------
  // Encoded text as a sequence of tokens: a literal character or a %XX triplet.
  // ------------------------------------------------------------------

  datatype Token = Lit(c: char) | Pct(b: Byte)

  function TokenText(t: Token): string
  {
    match t
    case Lit(c) => [c]
    case Pct(b) => ['%', HexDigit(b / 16), HexDigit(b % 16)]
  }

  function Render(ts: seq<Token>): string
  {
    if ts == [] then [] else TokenText(ts[0]) + Render(ts[1..])
  }

  /** The bytes a token stands for. */
  function TokenBytes(ts: seq<Token>): seq<Byte>
  {
    if ts == [] then []
    else (match ts[0] case Lit(c) => Utf8(c) case Pct(b) => [b]) + TokenBytes(ts[1..])
  }

  function PctAll(bytes: seq<Byte>): (r: seq<Token>)
    ensures |r| == |bytes| && forall i :: 0 <= i < |r| ==> r[i] == Pct(bytes[i])
  {
    if bytes == [] then [] else [Pct(bytes[0])] + PctAll(bytes[1..])
  }

  /** Every literal token is replaced by `reps` when it is the character p. */
  function ReplaceLit(ts: seq<Token>, p: char, reps: seq<Token>): seq<Token>
  {
    if ts == [] then []
    else (if ts[0] == Lit(p) then reps else [ts[0]]) + ReplaceLit(ts[1..], p, reps)
  }

  /** Every triplet token is replaced by `reps` when it encodes the byte b. */
  function ReplacePct(ts: seq<Token>, b: Byte, reps: seq<Token>): seq<Token>
  {
    if ts == [] then []
    else (if ts[0] == Pct(b) then reps else [ts[0]]) + ReplacePct(ts[1..], b, reps)
  }

  predicate NoLitPercent(ts: seq<Token>) { forall i :: 0 <= i < |ts| ==> ts[i] != Lit('%') }

  // ------------------------------------------------------------------
  // The Ruby pipeline as written
  // ------------------------------------------------------------------

  /** encode_www_form_component on one character. */
  function FormChar(c: char): seq<Token>
  {
    if FormSafe(c) then [Lit(c)] else if c == ' ' then [Lit('+')] else PctAll(Utf8(c))
  }

  function FormTokens(s: string): (r: seq<Token>)
    ensures NoLitPercent(r)
  {
    if s == [] then [] else FormChar(s[0]) + FormTokens(s[1..])
  }

  /** encode_www_form_component. */
  function FormEncode(s: string): string { Render(FormTokens(s)) }

  /** String#gsub with a literal pattern: left to right, non-overlapping. */
  function Gsub(s: string, pattern: string, replacement: string): string
    requires |pattern| > 0
    decreases |s|
  {
    if s == [] then []
    else if pattern <= s then replacement + Gsub(s[|pattern|..], pattern, replacement)
    else [s[0]] + Gsub(s[1..], pattern, replacement)
  }

  /** urlencode, stage by stage as the source chains it. */
  function Urlencode(s: string): string
  {
    Gsub(Gsub(Gsub(FormEncode(s), "+", "%20"), "%7E", "~"), "*", "%2A")
  }

  // ------------------------------------------------------------------
  // The reference definition: RFC 3986 percent-encoding of the UTF-8 bytes
  // ------------------------------------------------------------------

  function UrlChar(c: char): seq<Token>
  {
    if Unreserved(c) then [Lit(c)] else PctAll(Utf8(c))
  }

  function UrlTokens(s: string): seq<Token>
  {
    if s == [] then [] else UrlChar(s[0]) + UrlTokens(s[1..])
  }

  /** Reads percent-encoded text back into bytes; None on anything but unreserved characters and %XX. */
  function PercentDecode(text: string): Option<seq<Byte>>
    decreases |text|
  {
    if text == [] then Some([])
    else if Unreserved(text[0]) then
      var rest := PercentDecode(text[1..]);
      if rest.None? then None else Some([text[0] as int] + rest.value)
    else if text[0] == '%' && |text| >= 3 && IsHexDigit(text[1]) && IsHexDigit(text[2]) then
      var rest := PercentDecode(text[3..]);
      if rest.None? then None else Some([HexValue(text[1]) * 16 + HexValue(text[2])] + rest.value)
    else None
  }

  // ------------------------------------------------------------------
  // Proofs
  // ------------------------------------------------------------------

  lemma {:induction false} RenderAppend(a: seq<Token>, b: seq<Token>)
    ensures Render(a + b) == Render(a) + Render(b)
  {
    if a == [] {
      assert a + b == b;
    } else {
      assert (a + b)[1..] == a[1..] + b;
      RenderAppend(a[1..], b);
    }
  }

  lemma {:induction false} TokenBytesAppend(a: seq<Token>, b: seq<Token>)
    ensures TokenBytes(a + b) == TokenBytes(a) + TokenBytes(b)
  {
    if a == [] {
      assert a + b == b;
    } else {
      assert (a + b)[1..] == a[1..] + b;
      TokenBytesAppend(a[1..], b);
    }
  }

  lemma {:induction false} ReplaceLitAppend(a: seq<Token>, b: seq<Token>, p: char, reps: seq<Token>)
    ensures ReplaceLit(a + b, p, reps) == ReplaceLit(a, p, reps) + ReplaceLit(b, p, reps)
  {
    if a == [] {
      assert a + b == b;
    } else {
      assert (a + b)[1..] == a[1..] + b;
      ReplaceLitAppend(a[1..], b, p, reps);
    }
  }

  lemma {:induction false} ReplacePctAppend(a: seq<Token>, b: seq<Token>, x: Byte, reps: seq<Token>)
    ensures ReplacePct(a + b, x, reps) == ReplacePct(a, x, reps) + ReplacePct(b, x, reps)
  {
    if a == [] {
      assert a + b == b;
    } else {
      assert (a + b)[1..] == a[1..] + b;
      ReplacePctAppend(a[1..], b, x, reps);
    }
  }

  lemma {:induction false} ReplaceLitNoPercent(ts: seq<Token>, p: char, reps: seq<Token>)
    requires NoLitPercent(ts) && NoLitPercent(reps)
    ensures NoLitPercent(ReplaceLit(ts, p, reps))
  {
    if ts != [] {
      ReplaceLitNoPercent(ts[1..], p, reps);
    }
  }

  /** gsub does not rewrite a character at which the pattern does not start. */
  lemma GsubSkip(c: char, rest: string, pattern: string, replacement: string, i: nat)
    requires i < |pattern| && i <= |rest| && ([c] + rest)[i] != pattern[i]
    ensures Gsub([c] + rest, pattern, replacement) == [c] + Gsub(rest, pattern, replacement)
  {
    var s := [c] + rest;
    if |pattern| <= |s| {
      assert s[..|pattern|][i] != pattern[i];
    }
    assert s[1..] == rest;
  }

  lemma GsubMatch(rest: string, pattern: string, replacement: string)
    requires |pattern| > 0
    ensures Gsub(pattern + rest, pattern, replacement) == replacement + Gsub(rest, pattern, replacement)
  {
    assert (pattern + rest)[|pattern|..] == rest;
  }

  /** A one-character gsub acts on literal tokens only, when p can occur in no triplet. */
  lemma {:induction false} GsubLit(ts: seq<Token>, p: char, reps: seq<Token>)
    requires p != '%' && !IsHexDigit(p)
    ensures Gsub(Render(ts), [p], Render(reps)) == Render(ReplaceLit(ts, p, reps))
  {
    if ts != [] {
      var head := if ts[0] == Lit(p) then reps else [ts[0]];
      GsubLit(ts[1..], p, reps);
      GsubLitHead(ts[0], Render(ts[1..]), p, reps);
      RenderAppend(head, ReplaceLit(ts[1..], p, reps));
    }
  }

  /** One token's text under a one-character gsub, followed by any rest. */
  lemma GsubLitHead(t: Token, rest: string, p: char, reps: seq<Token>)
    requires p != '%' && !IsHexDigit(p)
    ensures Gsub(TokenText(t) + rest, [p], Render(reps))
         == Render(if t == Lit(p) then reps else [t]) + Gsub(rest, [p], Render(reps))
  {
    assert [t][1..] == [];
    assert Render([t]) == TokenText(t) + Render([]);
    match t
    case Lit(c) =>
      if c == p {
        GsubMatch(rest, [p], Render(reps));
      } else {
        GsubSkip(c, rest, [p], Render(reps), 0);
      }
    case Pct(b) =>
      GsubSkipTriplet(HexDigit(b / 16), HexDigit(b % 16), rest, p, Render(reps));
  }

  /** A one-character pattern that is neither '%' nor a digit of the triplet skips the triplet. */
  lemma GsubSkipTriplet(h1: char, h2: char, rest: string, p: char, replacement: string)
    requires p != '%' && p != h1 && p != h2
    ensures Gsub(['%', h1, h2] + rest, [p], replacement) == ['%', h1, h2] + Gsub(rest, [p], replacement)
  {
    GsubSkip(h2, rest, [p], replacement, 0);
    GsubSkip(h1, [h2] + rest, [p], replacement, 0);
    assert ['%', h1, h2] + rest == ['%'] + ([h1] + ([h2] + rest));
    GsubSkip('%', [h1] + ([h2] + rest), [p], replacement, 0);
  }

  /** The `%7E` rewrite acts on triplet tokens only, when no literal is '%'. */
  lemma {:induction false} GsubTilde(ts: seq<Token>)
    requires NoLitPercent(ts)
    ensures Gsub(Render(ts), "%7E", "~") == Render(ReplacePct(ts, 0x7E, [Lit('~')]))
  {
    if ts != [] {
      var rest := Render(ts[1..]);
      GsubTilde(ts[1..]);
      match ts[0]
      case Lit(c) =>
        assert ts[0] != Lit('%');
        GsubSkip(c, rest, "%7E", "~", 0);
        RenderAppend([ts[0]], ReplacePct(ts[1..], 0x7E, [Lit('~')]));
      case Pct(b) =>
        if b == 0x7E {
          assert TokenText(ts[0]) == "%7E";
          GsubMatch(rest, "%7E", "~");
          RenderAppend([Lit('~')], ReplacePct(ts[1..], 0x7E, [Lit('~')]));
        } else {
          TildeSkipTriplet(b, rest);
          RenderAppend([ts[0]], ReplacePct(ts[1..], 0x7E, [Lit('~')]));
        }
    }
  }

  /** A triplet other than %7E is passed over by the `%7E` rewrite. */
  lemma TildeSkipTriplet(b: Byte, rest: string)
    requires b != 0x7E
    ensures Gsub(TokenText(Pct(b)) + rest, "%7E", "~") == TokenText(Pct(b)) + Gsub(rest, "%7E", "~")
  {
    var h1, h2 := HexDigit(b / 16), HexDigit(b % 16);
    assert HexValue(h1) * 16 + HexValue(h2) == b;
    var pattern := "%7E";
    assert |pattern| == 3 && pattern[0] == '%' && pattern[1] == '7' && pattern[2] == 'E';
    TripletSkip(h1, h2, rest, pattern, "~");
  }

  /** A %XX triplet that differs from a three-character pattern starting with '%' is passed over whole. */
  lemma TripletSkip(h1: char, h2: char, rest: string, pattern: string, replacement: string)
    requires |pattern| == 3 && pattern[0] == '%' && h1 != '%' && h2 != '%'
    requires h1 != pattern[1] || h2 != pattern[2]
    ensures Gsub(['%', h1, h2] + rest, pattern, replacement) == ['%', h1, h2] + Gsub(rest, pattern, replacement)
  {
    GsubSkip(h2, rest, pattern, replacement, 0);
    GsubSkip(h1, [h2] + rest, pattern, replacement, 0);
    assert ['%', h1, h2] + rest == ['%'] + ([h1] + ([h2] + rest));
    GsubSkip('%', [h1] + ([h2] + rest), pattern, replacement, if h1 != pattern[1] then 1 else 2);
    assert ['%'] + ([h1] + ([h2] + Gsub(rest, pattern, replacement))) == ['%', h1, h2] + Gsub(rest, pattern, replacement);
  }

  lemma {:induction false} ReplaceLitPctAll(bytes: seq<Byte>, p: char, reps: seq<Token>)
    ensures ReplaceLit(PctAll(bytes), p, reps) == PctAll(bytes)
  {
    if bytes != [] {
      assert PctAll(bytes)[1..] == PctAll(bytes[1..]);
      ReplaceLitPctAll(bytes[1..], p, reps);
    }
  }

  lemma {:induction false} ReplacePctAllAbsent(bytes: seq<Byte>, x: Byte, reps: seq<Token>)
    requires x !in bytes
    ensures ReplacePct(PctAll(bytes), x, reps) == PctAll(bytes)
  {
    if bytes != [] {
      assert PctAll(bytes)[1..] == PctAll(bytes[1..]);
      ReplacePctAllAbsent(bytes[1..], x, reps);
    }
  }

  /** The three rewrites applied to the tokens of one character. */
  function Stages(ts: seq<Token>): seq<Token>
  {
    ReplaceLit(ReplacePct(ReplaceLit(ts, '+', [Pct(0x20)]), 0x7E, [Lit('~')]), '*', [Pct(0x2A)])
  }

  lemma StagesAppend(a: seq<Token>, b: seq<Token>)
    ensures Stages(a + b) == Stages(a) + Stages(b)
  {
    ReplaceLitAppend(a, b, '+', [Pct(0x20)]);
    var a1, b1 := ReplaceLit(a, '+', [Pct(0x20)]), ReplaceLit(b, '+', [Pct(0x20)]);
    ReplacePctAppend(a1, b1, 0x7E, [Lit('~')]);
    ReplaceLitAppend(ReplacePct(a1, 0x7E, [Lit('~')]), ReplacePct(b1, 0x7E, [Lit('~')]), '*', [Pct(0x2A)]);
  }

  /** Per character, the Ruby stages end where the RFC 3986 reference does. */
  lemma StagesChar(c: char)
    ensures Stages(FormChar(c)) == UrlChar(c)
  {
    if FormSafe(c) {
      assert ReplaceLit([Lit(c)], '+', [Pct(0x20)]) == [Lit(c)];
      assert ReplacePct([Lit(c)], 0x7E, [Lit('~')]) == [Lit(c)];
      if c == '*' {
        assert Utf8(c) == [0x2A];
        assert ReplaceLit([Lit(c)], '*', [Pct(0x2A)]) == [Pct(0x2A)];
      } else {
        assert ReplaceLit([Lit(c)], '*', [Pct(0x2A)]) == [Lit(c)];
      }
    } else if c == ' ' {
      assert Utf8(c) == [0x20];
      assert ReplaceLit([Lit('+')], '+', [Pct(0x20)]) == [Pct(0x20)];
      assert ReplacePct([Pct(0x20)], 0x7E, [Lit('~')]) == [Pct(0x20)];
      assert ReplaceLit([Pct(0x20)], '*', [Pct(0x2A)]) == [Pct(0x20)];
    } else {
      var bytes := Utf8(c);
      ReplaceLitPctAll(bytes, '+', [Pct(0x20)]);
      if c == '~' {
        assert bytes == [0x7E];
        assert ReplacePct([Pct(0x7E)], 0x7E, [Lit('~')]) == [Lit('~')];
        assert ReplaceLit([Lit('~')], '*', [Pct(0x2A)]) == [Lit('~')];
      } else {
        assert 0x7E !in bytes;
        ReplacePctAllAbsent(bytes, 0x7E, [Lit('~')]);
        ReplaceLitPctAll(bytes, '*', [Pct(0x2A)]);
      }
    }
  }

  lemma {:induction false} StagesFormTokens(s: string)
    ensures Stages(FormTokens(s)) == UrlTokens(s)
  {
    if s != [] {
      StagesAppend(FormChar(s[0]), FormTokens(s[1..]));
      StagesChar(s[0]);
      StagesFormTokens(s[1..]);
    }
  }

  lemma RenderedReplacements()
    ensures Render([Pct(0x20)]) == "%20" && Render([Pct(0x2A)]) == "%2A"
  {
    assert TokenText(Pct(0x20)) == "%20";
    assert TokenText(Pct(0x2A)) == "%2A";
  }

  /** urlencode is exactly the RFC 3986 percent-encoding of the UTF-8 bytes of its input. */
  lemma UrlencodeIsPercentEncoding(s: string)
    ensures Urlencode(s) == Render(UrlTokens(s))
  {
    var t0 := FormTokens(s);
    var t1 := ReplaceLit(t0, '+', [Pct(0x20)]);
    var t2 := ReplacePct(t1, 0x7E, [Lit('~')]);
    var t3 := ReplaceLit(t2, '*', [Pct(0x2A)]);
    RenderedReplacements();
    GsubLit(t0, '+', [Pct(0x20)]);
    assert Gsub(FormEncode(s), "+", "%20") == Render(t1);
    ReplaceLitNoPercent(t0, '+', [Pct(0x20)]);
    GsubTilde(t1);
    GsubLit(t2, '*', [Pct(0x2A)]);
    assert Urlencode(s) == Render(t3);
    StagesFormTokens(s);
  }

  lemma {:induction false} UrlTokensBytes(s: string)
    ensures TokenBytes(UrlTokens(s)) == Utf8String(s)
  {
    if s != [] {
      TokenBytesAppend(UrlChar(s[0]), UrlTokens(s[1..]));
      UrlTokensBytes(s[1..]);
      if !Unreserved(s[0]) {
        PctAllBytes(Utf8(s[0]));
      }
    }
  }

  lemma {:induction false} PctAllBytes(bytes: seq<Byte>)
    ensures TokenBytes(PctAll(bytes)) == bytes
  {
    if bytes != [] {
      assert PctAll(bytes)[1..] == PctAll(bytes[1..]);
      PctAllBytes(bytes[1..]);
    }
  }

  predicate LitsUnreserved(ts: seq<Token>) { forall i :: 0 <= i < |ts| ==> ts[i].Lit? ==> Unreserved(ts[i].c) }

  lemma {:induction false} UrlTokensUnreserved(s: string)
    ensures LitsUnreserved(UrlTokens(s))
  {
    if s != [] {
      UrlTokensUnreserved(s[1..]);
      var a: seq<Token>, b: seq<Token> := UrlChar(s[0]), UrlTokens(s[1..]);
      var ab: seq<Token> := a + b;
      assert UrlTokens(s) == ab;
      forall i | 0 <= i < |ab| && ab[i].Lit? ensures Unreserved(ab[i].c) {
        if i >= |a| { assert ab[i] == b[i - |a|]; }
      }
    }
  }

  lemma {:induction false} DecodeRender(ts: seq<Token>)
    requires LitsUnreserved(ts)
    ensures PercentDecode(Render(ts)) == Some(TokenBytes(ts))
  {
    if ts != [] {
      var rest := Render(ts[1..]);
      DecodeRender(ts[1..]);
      match ts[0]
      case Lit(c) =>
        assert Render(ts) == [c] + rest;
        assert Render(ts)[1..] == rest;
      case Pct(b) =>
        var text := Render(ts);
        assert text == ['%', HexDigit(b / 16), HexDigit(b % 16)] + rest;
        assert text[3..] == rest;
        assert HexValue(text[1]) * 16 + HexValue(text[2]) == b;
    }
  }

  /**
   * The output of urlencode consists only of unreserved characters and uppercase
   * `%XX` triplets (PercentDecode accepts nothing else), and decoding it gives
   * back the UTF-8 bytes of the input.
   */
  lemma UrlencodeDecodes(s: string)
    ensures PercentDecode(Urlencode(s)) == Some(Utf8String(s))
  {
    UrlencodeIsPercentEncoding(s);
    UrlTokensUnreserved(s);
    DecodeRender(UrlTokens(s));
    UrlTokensBytes(s);
  }

  /** An unreserved-only string is its own encoding. */
  lemma {:induction false} UrlencodeUnreserved(s: string)
    requires forall i :: 0 <= i < |s| ==> Unreserved(s[i])
    ensures Urlencode(s) == s
  {
    UrlencodeIsPercentEncoding(s);
    UnreservedRender(s);
  }

  lemma {:induction false} UnreservedRender(s: string)
    requires forall i :: 0 <= i < |s| ==> Unreserved(s[i])
    ensures Render(UrlTokens(s)) == s
  {
    if s != [] {
      RenderAppend(UrlChar(s[0]), UrlTokens(s[1..]));
      UnreservedRender(s[1..]);
    }
  }

  /** An ASCII character outside the unreserved set becomes its one %XX triplet. */
  lemma AsciiReserved(c: char)
    requires c as int < 0x80 && !Unreserved(c)
    ensures Urlencode([c]) == TokenText(Pct(c as int))
  {
    UrlencodeIsPercentEncoding([c]);
    var t := Pct(c as int);
    assert PctAll([c as int]) == [t];
    assert UrlTokens([c]) == [t] + UrlTokens([]) by { assert [c][1..] == []; }
    assert Render([t]) == TokenText(t) + Render([]) by { assert [t][1..] == []; }
  }

  /** Space is `%20` (never `+`), `*` is `%2A`, and `~` stays literal. */
  lemma SpecialCharacters()
    ensures Urlencode(" ") == "%20"
    ensures Urlencode("*") == "%2A"
    ensures Urlencode("~") == "~"
    ensures Urlencode("+") == "%2B"
  {
    AsciiReserved(' ');
    AsciiReserved('*');
    AsciiReserved('+');
    UrlencodeUnreserved("~");
  }

  /** The characters percent-encoded text is made of. */
  predicate EncodedChar(c: char) { Unreserved(c) || c == '%' }

  lemma {:induction false} RenderAlphabet(ts: seq<Token>)
    requires LitsUnreserved(ts)
    ensures forall i :: 0 <= i < |Render(ts)| ==> EncodedChar(Render(ts)[i])
  {
    if ts != [] {
      RenderAlphabet(ts[1..]);
      var a, b := TokenText(ts[0]), Render(ts[1..]);
      assert Render(ts) == a + b;
      forall i | 0 <= i < |a + b| ensures EncodedChar((a + b)[i]) {
        if i >= |a| { assert (a + b)[i] == b[i - |a|]; }
      }
    }
  }

  /** urlencode emits only unreserved characters and '%' (which starts each %XX triplet). */
  lemma UrlencodeAlphabet(s: string)
    ensures forall i :: 0 <= i < |Urlencode(s)| ==> EncodedChar(Urlencode(s)[i])
  {
    UrlencodeIsPercentEncoding(s);
    UrlTokensUnreserved(s);
    RenderAlphabet(UrlTokens(s));
  }
}
