/**
 * The identifier generator `uuidv4` of benchmarks/bench.js: the template
 * "10000000-1000-4000-8000-100000000000" has every `0`, `1` and `8` replaced,
 * left to right, by one lowercase hexadecimal digit computed from one random
 * byte.  The random bytes are an input here, one per substitution site.
 */
module Uuid {

  type byte = bv8

  /* ---------- The template ---------- */

  /** The hyphens of the 8-4-4-4-12 layout. */
  predicate IsHyphenIndex(i: int) {
    i == 8 || i == 13 || i == 18 || i == 23
  }

  /** Character `i` of the template: hyphens, the `4` at 14, the `8` at 19, `1`s at 0, 9 and 24. */
  function TemplateChar(i: int): char {
    if IsHyphenIndex(i) then '-'
    else if i == 14 then '4'
    else if i == 19 then '8'
    else if i == 0 || i == 9 || i == 24 then '1'
    else '0'
  }

  /**
   * The template string the generator rewrites, given position by position;
   * TemplateText shows that it is the literal of the source.
   */
  function Template(): (t: string)
    ensures |t| == 36
  {
    seq(36, i => TemplateChar(i))
  }

  lemma TemplateText()
    ensures Template() == "10000000-1000-4000-8000-100000000000"
  {
  }

  /* ---------- One substitution ---------- */

  /** The characters matched by the pattern `/[018]/g`: the substitution sites. */
  predicate IsSite(c: char) {
    c == '0' || c == '1' || c == '8'
  }

  /** The characters `Number.prototype.toString(16)` produces for a value in [0, 15]. */
  predicate IsLowerHex(x: char) {
    '0' <= x <= '9' || 'a' <= x <= 'f'
  }

  /** The value of a lowercase hexadecimal digit. */
  function HexValue(x: char): (v: byte)
    requires IsLowerHex(x)
    ensures v < 16
  {
    if x <= '9' then (x as int - '0' as int) as byte else (x as int - 'a' as int + 10) as byte
  }

  /** `v.toString(16)` for 0 <= v < 16: a single lowercase hexadecimal digit. */
  function HexDigit(v: byte): (x: char)
    requires v < 16
    ensures IsLowerHex(x) && HexValue(x) == v
  {
    if v < 10 then ('0' as int + v as int) as char else ('a' as int + v as int - 10) as char
  }

  /**
   * The number `+c` for a matched character.  Only sites are ever matched;
   * any other character is given 0, which keeps the callback total.
   */
  function Digit(c: char): (d: byte)
    ensures IsSite(c) ==> d as int == c as int - '0' as int
  {
    if c == '1' then 1 else if c == '8' then 8 else 0
  }

  /**
   * The mask `15 >> +c / 4`.  The shift count `+c / 4` is 0, 0.25 or 2; the
   * shift operator truncates it to an integer, which is what `/` on `bv8`
   * does for these non-negative operands.
   */
  function Mask(c: char): (m: byte)
    ensures m == if c == '8' then 3 else 15
  {
    15 >> (Digit(c) / 4)
  }

  /**
   * The callback of `replace`: `(+c ^ b & 15 >> +c / 4).toString(16)`, which
   * parses as `c ^ (b & (15 >> (c / 4)))`.
   */
  function Substitute(c: char, b: byte): (x: char)
    ensures IsLowerHex(x)
  {
    HexDigit(Digit(c) ^ (b & Mask(c)))
  }

  /**
   * The characters a site may become: hexadecimal digits that agree with the
   * site's template digit on every bit the mask does not let the byte change.
   */
  predicate SiteAccepts(c: char, x: char) {
    IsLowerHex(x) && (HexValue(x) ^ Digit(c)) & !Mask(c) == 0
  }

  /** The byte that makes site `c` produce `x` (0 for a character that is no hexadecimal digit). */
  function SiteByte(c: char, x: char): byte {
    if IsLowerHex(x) then HexValue(x) ^ Digit(c) else 0
  }

  /** The bits of `b` that site `c` lets through to its digit. */
  function Keep(c: char, b: byte): byte {
    b & Mask(c)
  }

  /** The digit each kind of site produces. */
  lemma SiteDigit(c: char, b: byte)
    requires IsSite(c)
    ensures c == '0' ==> Substitute(c, b) == HexDigit(b & 15)
    ensures c == '1' ==> Substitute(c, b) == HexDigit(1 ^ (b & 15))
    ensures c == '8' ==> Substitute(c, b) == HexDigit(8 ^ (b & 3))
  {
    assert Mask('0') == 15 && Mask('1') == 15 && Mask('8') == 3;
  }

  /** A site's digit is one the site accepts. */
  lemma SubstituteAccepted(c: char, b: byte)
    ensures SiteAccepts(c, Substitute(c, b))
  {
    var v := Digit(c) ^ (b & Mask(c));
    assert HexValue(HexDigit(v)) == v;
    assert (v ^ Digit(c)) & !Mask(c) == 0;
  }

  lemma DecimalDigitOfValue(x: char)
    requires '0' <= x <= '9'
    ensures HexDigit(HexValue(x)) == x
  {
    var n := x as int - '0' as int;
    assert (n as byte) as int == n;
  }

  lemma LetterDigitOfValue(x: char)
    requires 'a' <= x <= 'f'
    ensures HexDigit(HexValue(x)) == x
  {
    var n := x as int - 'a' as int + 10;
    assert (n as byte) as int == n;
  }

  /** `HexDigit` and `HexValue` are inverse on lowercase hexadecimal digits. */
  lemma HexDigitOfValue(x: char)
    requires IsLowerHex(x)
    ensures HexDigit(HexValue(x)) == x
  {
    if x <= '9' {
      DecimalDigitOfValue(x);
    } else {
      LetterDigitOfValue(x);
    }
  }

  /** The byte read back from an accepted character rewrites the site to that character. */
  lemma SubstituteSiteByte(c: char, x: char)
    requires SiteAccepts(c, x)
    ensures Substitute(c, SiteByte(c, x)) == x
  {
    var v := HexValue(x);
    assert Digit(c) ^ ((v ^ Digit(c)) & Mask(c)) == v;
    HexDigitOfValue(x);
  }

  /** The byte read back from a site's digit is the part of the byte the mask kept. */
  lemma SiteByteSubstitute(c: char, b: byte)
    ensures SiteByte(c, Substitute(c, b)) == Keep(c, b)
  {
    var v := Digit(c) ^ (b & Mask(c));
    assert HexValue(HexDigit(v)) == v;
  }

  /** Only the kept bits of a byte reach the digit. */
  lemma SubstituteKeep(c: char, b: byte)
    ensures Substitute(c, Keep(c, b)) == Substitute(c, b)
  {
    assert Keep(c, b) & Mask(c) == b & Mask(c);
  }

  /** The `8` site may become only `8`, `9`, `a` or `b`. */
  lemma VariantSite(x: char)
    ensures SiteAccepts('8', x) <==> x in {'8', '9', 'a', 'b'}
  {
    assert Mask('8') == 3;
    if IsLowerHex(x) {
      var v := HexValue(x);
      assert (v ^ 8) & !3 == 0 <==> 8 <= v < 12;
      assert 8 <= v < 12 <==> x in {'8', '9', 'a', 'b'};
    }
  }

  /** A `0` or `1` site may become any hexadecimal digit. */
  lemma FullSite(c: char, x: char)
    requires c == '0' || c == '1'
    ensures SiteAccepts(c, x) <==> IsLowerHex(x)
  {
    if IsLowerHex(x) {
      assert HexValue(x) < 16;
    }
  }

  /* ---------- Replacing every site ---------- */

  /** The site characters of a string, in order. */
  function Sites(t: string): (s: seq<char>)
    ensures |s| <= |t|
  {
    if t == [] then []
    else if IsSite(t[0]) then [t[0]] + Sites(t[1..])
    else Sites(t[1..])
  }

  /**
   * `t.replace(/[018]/g, callback)` where the callback `f` is passed the
   * matched character and the byte it draws; the draws are `bytes`, one per
   * site from the left.
   */
  function Replace(t: string, f: (char, byte) -> char, bytes: seq<byte>): (r: string)
    requires |bytes| == |Sites(t)|
    ensures |r| == |t|
  {
    if t == [] then ""
    else if IsSite(t[0]) then [f(t[0], bytes[0])] + Replace(t[1..], f, bytes[1..])
    else [t[0]] + Replace(t[1..], f, bytes)
  }

  /** A string has the shape of `t` with every site rewritten to a character it accepts. */
  predicate Matches(t: string, r: string) {
    |r| == |t| &&
    forall i :: 0 <= i < |t| ==> if IsSite(t[i]) then SiteAccepts(t[i], r[i]) else r[i] == t[i]
  }

  /** The bytes that rewrite `t` into `r`, one per site: see ReplaceUnfill. */
  function Unfill(t: string, r: string): (bytes: seq<byte>)
    requires |r| == |t|
    ensures |bytes| == |Sites(t)|
  {
    if t == [] then []
    else if IsSite(t[0]) then [SiteByte(t[0], r[0])] + Unfill(t[1..], r[1..])
    else Unfill(t[1..], r[1..])
  }

  /**
   * The bits of each byte that its site's mask lets through: what the output
   * retains of the random input.
   */
  function KeptBits(t: string, bytes: seq<byte>): (kept: seq<byte>)
    requires |bytes| == |Sites(t)|
    ensures |kept| == |bytes|
    ensures forall j :: 0 <= j < |bytes| ==> kept[j] == Keep(Sites(t)[j], bytes[j])
  {
    if t == [] then []
    else if IsSite(t[0]) then [Keep(t[0], bytes[0])] + KeptBits(t[1..], bytes[1..])
    else KeptBits(t[1..], bytes)
  }

  /** The bytes of the sites after the first character of `t`. */
  function TailBytes(t: string, bytes: seq<byte>): (rest: seq<byte>)
    requires t != [] && |bytes| == |Sites(t)|
    ensures |rest| == |Sites(t[1..])|
  {
    if IsSite(t[0]) then bytes[1..] else bytes
  }

  lemma ReplaceTail(t: string, f: (char, byte) -> char, bytes: seq<byte>)
    requires t != [] && |bytes| == |Sites(t)|
    ensures Replace(t, f, bytes)[1..] == Replace(t[1..], f, TailBytes(t, bytes))
    ensures Replace(t, f, bytes)[0] == if IsSite(t[0]) then f(t[0], bytes[0]) else t[0]
  {
  }

  lemma UnfillTail(t: string, r: string)
    requires t != [] && |r| == |t|
    ensures Unfill(t, r) == (if IsSite(t[0]) then [SiteByte(t[0], r[0])] else []) + Unfill(t[1..], r[1..])
    ensures Sites(t) == (if IsSite(t[0]) then [t[0]] else []) + Sites(t[1..])
  {
  }

  /** The sites of a concatenation are the sites of its parts. */
  lemma {:induction false} SitesAppend(a: string, b: string)
    ensures Sites(a + b) == Sites(a) + Sites(b)
  {
    if a == [] {
      assert a + b == b;
    } else {
      assert (a + b)[1..] == a[1..] + b;
      SitesAppend(a[1..], b);
    }
  }

  /** The number of sites before position `i` of `t`, counted from its first character. */
  lemma SitesPrefixTail(t: string, i: nat)
    requires 0 < i <= |t|
    ensures |Sites(t[..i])| == (if IsSite(t[0]) then 1 else 0) + |Sites(t[1..][..i - 1])|
  {
    assert t[..i][0] == t[0];
    assert t[..i][1..] == t[1..][..i - 1];
  }

  /**
   * Position `i` of the output: a non-site character is copied, and a site is
   * rewritten from the byte whose index is the number of sites to its left.
   */
  lemma {:induction false} ReplaceAt(t: string, f: (char, byte) -> char, bytes: seq<byte>, i: nat)
    requires |bytes| == |Sites(t)|
    requires i < |t|
    ensures IsSite(t[i]) ==> |Sites(t[..i])| < |bytes| &&
                             Replace(t, f, bytes)[i] == f(t[i], bytes[|Sites(t[..i])|])
    ensures !IsSite(t[i]) ==> Replace(t, f, bytes)[i] == t[i]
  {
    ReplaceTail(t, f, bytes);
    var r := Replace(t, f, bytes);
    if i == 0 {
      assert t[..0] == [];
    } else {
      var rest := TailBytes(t, bytes);
      SitesPrefixTail(t, i);
      ReplaceAt(t[1..], f, rest, i - 1);
      assert r[i] == r[1..][i - 1] && t[1..][i - 1] == t[i];
      if IsSite(t[i]) {
        var n, m := |Sites(t[..i])|, |Sites(t[1..][..i - 1])|;
        assert rest[m] == bytes[n];
      }
    }
  }

  /* ---------- Replacing with the uuidv4 callback ---------- */

  /** Every output has the template's shape. */
  lemma ReplaceMatches(t: string, bytes: seq<byte>)
    requires |bytes| == |Sites(t)|
    ensures Matches(t, Replace(t, Substitute, bytes))
  {
    forall i | 0 <= i < |t|
      ensures if IsSite(t[i]) then SiteAccepts(t[i], Replace(t, Substitute, bytes)[i])
              else Replace(t, Substitute, bytes)[i] == t[i]
    {
      ReplaceAt(t, Substitute, bytes, i);
      if IsSite(t[i]) {
        SubstituteAccepted(t[i], bytes[|Sites(t[..i])|]);
      }
    }
  }

  /** Every string with the template's shape is an output. */
  lemma {:induction false} ReplaceUnfill(t: string, r: string)
    requires Matches(t, r)
    ensures Replace(t, Substitute, Unfill(t, r)) == r
  {
    if t != [] {
      assert Matches(t[1..], r[1..]) by {
        forall i | 0 <= i < |t| - 1
          ensures if IsSite(t[1..][i]) then SiteAccepts(t[1..][i], r[1..][i]) else r[1..][i] == t[1..][i]
        {
          assert t[1..][i] == t[i + 1] && r[1..][i] == r[i + 1];
        }
      }
      var bytes := Unfill(t, r);
      UnfillTail(t, r);
      ReplaceTail(t, Substitute, bytes);
      assert TailBytes(t, bytes) == Unfill(t[1..], r[1..]);
      ReplaceUnfill(t[1..], r[1..]);
      if IsSite(t[0]) {
        SubstituteSiteByte(t[0], r[0]);
      }
      var out := Replace(t, Substitute, bytes);
      assert out == [out[0]] + out[1..];
      assert r == [r[0]] + r[1..];
    }
  }

  /** Reading the bytes back from an output gives exactly the bits the masks kept. */
  lemma {:induction false} UnfillReplace(t: string, bytes: seq<byte>)
    requires |bytes| == |Sites(t)|
    ensures Unfill(t, Replace(t, Substitute, bytes)) == KeptBits(t, bytes)
  {
    if t != [] {
      var r := Replace(t, Substitute, bytes);
      ReplaceTail(t, Substitute, bytes);
      UnfillTail(t, r);
      UnfillReplace(t[1..], TailBytes(t, bytes));
      if IsSite(t[0]) {
        SiteByteSubstitute(t[0], bytes[0]);
      }
    }
  }

  /** Only the bits a site keeps reach the output. */
  lemma {:induction false} ReplaceKeptBits(t: string, bytes: seq<byte>)
    requires |bytes| == |Sites(t)|
    ensures Replace(t, Substitute, KeptBits(t, bytes)) == Replace(t, Substitute, bytes)
  {
    if t != [] {
      var kept := KeptBits(t, bytes);
      ReplaceTail(t, Substitute, bytes);
      ReplaceTail(t, Substitute, kept);
      if IsSite(t[0]) {
        assert kept == [Keep(t[0], bytes[0])] + KeptBits(t[1..], bytes[1..]);
        SubstituteKeep(t[0], bytes[0]);
        assert TailBytes(t, kept) == KeptBits(t[1..], bytes[1..]);
      } else {
        assert TailBytes(t, kept) == KeptBits(t[1..], bytes);
      }
      ReplaceKeptBits(t[1..], TailBytes(t, bytes));
      var x, y := Replace(t, Substitute, kept), Replace(t, Substitute, bytes);
      assert x == [x[0]] + x[1..];
      assert y == [y[0]] + y[1..];
    }
  }

  /* ---------- The sites of the template ---------- */

  /** The template, character by character: only unfolds `Template()` for the solver. */
  lemma TemplateAt(i: nat)
    requires i < 36
    ensures Template()[i] == if IsHyphenIndex(i) then '-'
                            else if i == 14 then '4'
                            else if i == 19 then '8'
                            else if i == 0 || i == 9 || i == 24 then '1'
                            else '0'
  {
  }

  lemma {:induction false} AllSites(t: string)
    requires forall i :: 0 <= i < |t| ==> IsSite(t[i])
    ensures Sites(t) == t
  {
    if t != [] {
      AllSites(t[1..]);
    }
  }

  lemma {:induction false} NoSites(t: string)
    requires forall i :: 0 <= i < |t| ==> !IsSite(t[i])
    ensures Sites(t) == []
  {
    if t != [] {
      NoSites(t[1..]);
    }
  }

  lemma SitesSplit(t: string, i: nat, j: nat)
    requires i <= j <= |t|
    ensures Sites(t[..j]) == Sites(t[..i]) + Sites(t[i..j])
  {
    assert t[..j] == t[..i] + t[i..j];
    SitesAppend(t[..i], t[i..j]);
  }

  /** A stretch of the template without hyphens or the `4` is all sites. */
  lemma SiteRun(i: nat, j: nat)
    requires i <= j <= 36
    requires forall k :: i <= k < j ==> !IsHyphenIndex(k) && k != 14
    ensures Sites(Template()[i..j]) == Template()[i..j]
  {
    forall k | 0 <= k < j - i
      ensures IsSite(Template()[i..j][k])
    {
      TemplateAt(i + k);
    }
    AllSites(Template()[i..j]);
  }

  /** A stretch of the template of hyphens and the `4` has no sites. */
  lemma NonSiteRun(i: nat, j: nat)
    requires i <= j <= 36
    requires forall k :: i <= k < j ==> IsHyphenIndex(k) || k == 14
    ensures Sites(Template()[i..j]) == []
  {
    forall k | 0 <= k < j - i
      ensures !IsSite(Template()[i..j][k])
    {
      TemplateAt(i + k);
    }
    NoSites(Template()[i..j]);
  }

  /** The sites of the template's prefixes, as stretches of the template. */
  lemma TemplateSitePrefixes()
    ensures Sites(Template()[..19]) == Template()[..8] + Template()[9..13] + Template()[15..18]
    ensures Sites(Template()) == Template()[..8] + Template()[9..13] + Template()[15..18] + Template()[19..23] + Template()[24..]
  {
    var t := Template();
    assert Sites(t[..8]) == t[..8] by { assert t[..0] == []; SiteRun(0, 8); SitesSplit(t, 0, 8); }
    assert Sites(t[..9]) == t[..8] by { NonSiteRun(8, 9); SitesSplit(t, 8, 9); }
    assert Sites(t[..13]) == t[..8] + t[9..13] by { SiteRun(9, 13); SitesSplit(t, 9, 13); }
    assert Sites(t[..15]) == t[..8] + t[9..13] by { NonSiteRun(13, 15); SitesSplit(t, 13, 15); }
    assert Sites(t[..18]) == t[..8] + t[9..13] + t[15..18] by { SiteRun(15, 18); SitesSplit(t, 15, 18); }
    assert Sites(t[..19]) == t[..8] + t[9..13] + t[15..18] by { NonSiteRun(18, 19); SitesSplit(t, 18, 19); }
    assert Sites(t[..23]) == t[..8] + t[9..13] + t[15..18] + t[19..23] by { SiteRun(19, 23); SitesSplit(t, 19, 23); }
    assert Sites(t[..24]) == t[..8] + t[9..13] + t[15..18] + t[19..23] by { NonSiteRun(23, 24); SitesSplit(t, 23, 24); }
    assert Sites(t[..36]) == t[..8] + t[9..13] + t[15..18] + t[19..23] + t[24..] by { SiteRun(24, 36); SitesSplit(t, 24, 36); }
    assert t[..36] == t;
  }

  /** The five parts of a concatenation are its slices at the running lengths. */
  lemma ConcatParts(a: string, b: string, c: string, d: string, e: string)
    ensures var u, i, j, k, l := a + b + c + d + e, |a|, |a| + |b|, |a| + |b| + |c|, |a| + |b| + |c| + |d|;
      && u[..i] == a && u[i..j] == b && u[j..k] == c && u[k..l] == d && u[l..] == e
  {
    var ab := a + b;
    var abc := ab + c;
    var abcd := abc + d;
    assert abcd + e == a + b + c + d + e;
    assert (abcd + e)[..|abcd|] == abcd && (abcd + e)[|abcd|..] == e;
    assert abcd[..|abc|] == abc && abcd[|abc|..] == d;
    assert abc[..|ab|] == ab && abc[|ab|..] == c;
    assert ab[..|a|] == a && ab[|a|..] == b;
  }

  /**
   * The template has 31 sites, so it draws 31 bytes; the `8` at index 19 is
   * preceded by 15 sites, so it takes the sixteenth byte.  Site 15 is the `8`,
   * sites 0, 8 and 19 are `1`s and the rest are `0`s.
   */
  lemma TemplateSites()
    ensures |Sites(Template())| == 31
    ensures |Sites(Template()[..19])| == 15
    ensures forall j :: 0 <= j < 31 ==>
      Sites(Template())[j] == if j == 15 then '8' else if j == 0 || j == 8 || j == 19 then '1' else '0'
  {
    TemplateSitePrefixes();
    var t, u := Template(), Sites(Template());
    ConcatParts(t[..8], t[9..13], t[15..18], t[19..23], t[24..]);
    forall j | 0 <= j < 31
      ensures u[j] == if j == 15 then '8' else if j == 0 || j == 8 || j == 19 then '1' else '0'
    {
      if j < 8 {
        assert u[j] == u[..8][j] == t[j];
        TemplateAt(j);
      } else if j < 12 {
        assert u[j] == u[8..12][j - 8] == t[j + 1];
        TemplateAt(j + 1);
      } else if j < 15 {
        assert u[j] == u[12..15][j - 12] == t[j + 3];
        TemplateAt(j + 3);
      } else if j < 19 {
        assert u[j] == u[15..19][j - 15] == t[j + 4];
        TemplateAt(j + 4);
      } else {
        assert u[j] == u[19..][j - 19] == t[j + 5];
        TemplateAt(j + 5);
      }
    }
  }

  /* ---------- uuidv4 ---------- */

  /**
   * The version-4 layout of section 4.4 of RFC 4122 in its 8-4-4-4-12 string
   * form: hyphens at indices 8, 13, 18 and 23, the version digit `4` at index
   * 14 (section 4.1.3), a variant digit `10xx` in binary at index 19
   * (section 4.1.1), and lowercase hexadecimal digits elsewhere.
   */
  predicate IsV4Layout(r: string) {
    |r| == 36 &&
    (forall i :: 0 <= i < 36 && IsHyphenIndex(i) ==> r[i] == '-') &&
    r[14] == '4' &&
    r[19] in {'8', '9', 'a', 'b'} &&
    forall i :: 0 <= i < 36 && !IsHyphenIndex(i) && i != 14 ==> IsLowerHex(r[i])
  }

  /** The strings of the template's shape are exactly those of the version-4 layout. */
  lemma TemplateLayout(r: string)
    ensures Matches(Template(), r) <==> IsV4Layout(r)
  {
    forall i | 0 <= i < 36 { TemplateAt(i); }
    if |r| == 36 {
      forall i | 0 <= i < 36 && IsSite(Template()[i])
        ensures SiteAccepts(Template()[i], r[i]) <==> if i == 19 then r[i] in {'8', '9', 'a', 'b'} else IsLowerHex(r[i])
      {
        if i == 19 {
          VariantSite(r[i]);
        } else {
          FullSite(Template()[i], r[i]);
        }
      }
    }
  }

  /**
   * `uuidv4()`: the template with its 31 sites rewritten from 31 random
   * bytes, which always has the version-4 layout.
   */
  function Uuidv4(bytes: seq<byte>): (r: string)
    requires |bytes| == 31
    ensures IsV4Layout(r)
  {
    TemplateSites();
    ReplaceMatches(Template(), bytes);
    TemplateLayout(Replace(Template(), Substitute, bytes));
    Replace(Template(), Substitute, bytes)
  }

  /** The bytes of an identifier: every string of the version-4 layout is an output. */
  function Uuidv4Bytes(r: string): (bytes: seq<byte>)
    requires IsV4Layout(r)
    ensures |bytes| == 31 && Uuidv4(bytes) == r
  {
    TemplateLayout(r);
    TemplateSites();
    ReplaceUnfill(Template(), r);
    Unfill(Template(), r)
  }

  /** The hyphens and the version digit `4` are copied from the template. */
  lemma Uuidv4Fixed(bytes: seq<byte>, i: nat)
    requires |bytes| == 31 && i < 36
    requires IsHyphenIndex(i) || i == 14
    ensures Uuidv4(bytes)[i] == Template()[i]
  {
    TemplateSites();
    TemplateAt(i);
    ReplaceAt(Template(), Substitute, bytes, i);
  }

  /**
   * A `0` or `1` site `i` is rewritten from byte number `n`, the count of
   * sites left of `i`: as `b & 15` at a `0` and as `1 ^ (b & 15)` at a `1`.
   */
  lemma Uuidv4Site(bytes: seq<byte>, i: nat)
    requires |bytes| == 31 && i < 36
    requires Template()[i] == '0' || Template()[i] == '1'
    ensures var n := |Sites(Template()[..i])|;
      && n < 31
      && (Template()[i] == '0' ==> Uuidv4(bytes)[i] == HexDigit(bytes[n] & 15))
      && (Template()[i] == '1' ==> Uuidv4(bytes)[i] == HexDigit(1 ^ (bytes[n] & 15)))
  {
    TemplateSites();
    ReplaceAt(Template(), Substitute, bytes, i);
    var n := |Sites(Template()[..i])|;
    assert Uuidv4(bytes)[i] == Substitute(Template()[i], bytes[n]);
    SiteDigit(Template()[i], bytes[n]);
  }

  /** The variant digit at index 19 is `8 ^ (b & 3)` for the sixteenth byte `b`. */
  lemma Uuidv4Variant(bytes: seq<byte>)
    requires |bytes| == 31
    ensures Uuidv4(bytes)[19] == HexDigit(8 ^ (bytes[15] & 3))
  {
    TemplateSites();
    TemplateAt(19);
    ReplaceAt(Template(), Substitute, bytes, 19);
    assert Uuidv4(bytes)[19] == Substitute('8', bytes[15]);
    SiteDigit('8', bytes[15]);
  }

  /** The bits of a block of 31 bytes that `uuidv4` lets through, one element per site. */
  function Kept(bytes: seq<byte>): (kept: seq<byte>)
    requires |bytes| == 31
    ensures |kept| == 31
    ensures forall j :: 0 <= j < 31 ==> kept[j] == bytes[j] & (if j == 15 then 3 else 15)
  {
    TemplateSites();
    KeptBits(Template(), bytes)
  }

  /** Reading the bytes back from an identifier yields the bits its sites kept. */
  lemma Uuidv4BytesKept(bytes: seq<byte>)
    requires |bytes| == 31
    ensures Uuidv4Bytes(Uuidv4(bytes)) == Kept(bytes)
  {
    TemplateSites();
    UnfillReplace(Template(), bytes);
  }

  /** Two byte blocks give the same identifier exactly when they agree on the kept bits. */
  lemma Uuidv4SameIff(b1: seq<byte>, b2: seq<byte>)
    requires |b1| == 31 && |b2| == 31
    ensures Uuidv4(b1) == Uuidv4(b2) <==> Kept(b1) == Kept(b2)
  {
    TemplateSites();
    Uuidv4BytesKept(b1);
    Uuidv4BytesKept(b2);
    ReplaceKeptBits(Template(), b1);
    ReplaceKeptBits(Template(), b2);
  }
}
