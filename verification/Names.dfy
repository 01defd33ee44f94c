/** Node paths, decimal numerals, sequential-node suffixes and segment file names. */
module Names {
  import opened Base

  // ---------------------------------------------------------------- paths

  datatype Split = NoSlash | At(prefix: string, name: string)

  /** `str::rsplit_once("/")`. */
  function RsplitOnce(s: string): (r: Split)
    ensures r.NoSlash? <==> '/' !in s
    ensures r.At? ==> s == r.prefix + "/" + r.name && '/' !in r.name
  {
    if s == "" then NoSlash
    else if s[|s| - 1] == '/' then At(s[..|s| - 1], "")
    else match RsplitOnce(s[..|s| - 1])
      case NoSlash => NoSlash
      case At(p, n) => At(p, n + [s[|s| - 1]])
  }

  lemma RsplitLast(s: string)
    requires s != ""
    ensures var init, last := s[..|s| - 1], s[|s| - 1];
      RsplitOnce(s) ==
      if last == '/' then At(init, "")
      else match RsplitOnce(init) case NoSlash => NoSlash case At(prefix, name) => At(prefix, name + [last])
  {
  }

  /** The split is the only one whose name has no slash. */
  lemma {:induction false} SplitUnique(prefix: string, name: string)
    requires '/' !in name
    ensures RsplitOnce(prefix + "/" + name) == At(prefix, name)
  {
    hide RsplitOnce;
    var s := prefix + "/" + name;
    RsplitLast(s);
    if name == "" {
      assert s[..|s| - 1] == prefix;
    } else {
      var init := name[..|name| - 1];
      assert s[..|s| - 1] == prefix + "/" + init;
      assert name == init + [name[|name| - 1]];
      SplitUnique(prefix, init);
    }
  }

  function Parent(path: string): string {
    match RsplitOnce(path)
    case NoSlash => ""
    case At(p, _) => if p == "" then "/" else p
  }

  function Name(path: string): string {
    match RsplitOnce(path)
    case NoSlash => ""
    case At(_, n) => n
  }

  /** A path that `create` and `delete` accept: it has a slash and a non-empty last component. */
  predicate IsNodePath(path: string) {
    RsplitOnce(path).At? && Name(path) != ""
  }

  /** The root is the only path whose first component is empty twice over. */
  predicate DoubleSlash(path: string) { |path| >= 2 && path[0] == path[1] == '/' }

  /** `/x` for `//x` and the other way round: the two spellings of one child of the root. */
  function Twin(path: string): string {
    if DoubleSlash(path) then path[1..] else "/" + path
  }

  lemma TwinOf(n: string)
    requires n != "" && n[0] != '/'
    ensures Twin("" + "/" + n) == "/" + "/" + n && Twin("/" + "/" + n) == "" + "/" + n
  {
    assert "" + "/" + n == "/" + n;
    assert ("/" + "/" + n)[1..] == "/" + n;
  }

  /** A path is fixed by its parent and its name, except directly below the root. */
  lemma PathFixed(p: string, q: string)
    requires IsNodePath(p) && IsNodePath(q) && Parent(p) == Parent(q) && Name(p) == Name(q)
    ensures p == q || (Parent(p) == "/" && q == Twin(p))
  {
    var a, b, n := RsplitOnce(p).prefix, RsplitOnce(q).prefix, RsplitOnce(p).name;
    assert p == a + "/" + n && q == b + "/" + n;
    if a != b {
      assert n[0] != '/';
      TwinOf(n);
    }
  }

  lemma TwinSibling(p: string)
    requires IsNodePath(p) && Parent(p) == "/"
    ensures IsNodePath(Twin(p)) && Parent(Twin(p)) == "/" && Name(Twin(p)) == Name(p) && Twin(p) != p
    ensures DoubleSlash(p) <==> !DoubleSlash(Twin(p))
  {
    var n := Name(p);
    assert n[0] != '/';
    if RsplitOnce(p).prefix == "" {
      assert p == "/" + n;
      assert Twin(p) == "/" + "/" + n;
      SplitUnique("/", n);
    } else {
      assert p == "/" + "/" + n;
      assert Twin(p) == "" + "/" + n;
      SplitUnique("", n);
    }
  }

  lemma ParentShorter(path: string)
    requires IsNodePath(path)
    ensures Parent(path) != path && path != "/"
  {
    assert RsplitOnce("/") == At("", "");
  }

  /** A suffix without a slash changes neither the split point nor the parent. */
  lemma SuffixKeepsParent(path: string, suffix: string)
    requires IsNodePath(path) && '/' !in suffix
    ensures IsNodePath(path + suffix) && Parent(path + suffix) == Parent(path)
    ensures Name(path + suffix) == Name(path) + suffix
  {
    var At(p, n) := RsplitOnce(path);
    assert path + suffix == p + "/" + (n + suffix);
    SplitUnique(p, n + suffix);
  }

  // ------------------------------------------------------------- numerals

  function Digit(d: nat): char
    requires d < 10
  {
    '0' + d as char
  }

  predicate IsDigit(c: char) { '0' <= c <= '9' }

  predicate AllDigits(s: string) { forall c :: c in s ==> IsDigit(c) }

  /** Decimal numeral without leading zeros. */
  function Decimal(n: nat): (s: string)
    ensures s != "" && AllDigits(s)
  {
    if n < 10 then [Digit(n)] else Decimal(n / 10) + [Digit(n % 10)]
  }

  /** Exactly `w` digits: the last `w` of the numeral, zero-filled. */
  function Fixed(n: nat, w: nat): (s: string)
    ensures |s| == w && AllDigits(s)
  {
    if w == 0 then "" else Fixed(n / 10, w - 1) + [Digit(n % 10)]
  }

  function Pow10(w: nat): nat { if w == 0 then 1 else 10 * Pow10(w - 1) }

  function PadLeft(s: string, w: nat): (r: string)
    ensures AllDigits(s) ==> AllDigits(r)
    decreases w - |s|
  {
    if |s| >= w then s else PadLeft("0" + s, w)
  }

  /** `format!("{:010}", n)` for an `i32`: the sign counts towards the width of ten. */
  function SeqSuffix(n: int): (s: string)
    ensures '/' !in s
  {
    if n >= 0 then PadLeft(Decimal(n), 10) else "-" + PadLeft(Decimal(-n), 9)
  }

  lemma {:induction false} PadSnoc(s: string, c: char, w: nat)
    requires w > 0
    ensures PadLeft(s + [c], w) == PadLeft(s, w - 1) + [c]
    decreases w - |s|
  {
    if |s| + 1 < w {
      assert "0" + (s + [c]) == ("0" + s) + [c];
      PadSnoc("0" + s, c, w);
    }
  }

  lemma {:induction false} PadZeros(w: nat)
    ensures PadLeft("", w) == Fixed(0, w)
  {
    if w > 0 {
      assert "" + ['0'] == "0" && "0" + "" == "0";
      PadSnoc("", '0', w);
      PadZeros(w - 1);
    }
  }

  lemma {:induction false} PadIsFixed(n: nat, w: nat)
    requires w > 0 && n < Pow10(w)
    ensures PadLeft(Decimal(n), w) == Fixed(n, w)
  {
    if n < 10 {
      assert Decimal(n) == "" + [Digit(n)];
      PadSnoc("", Digit(n), w);
      PadZeros(w - 1);
    } else {
      PadSnoc(Decimal(n / 10), Digit(n % 10), w);
      PadIsFixed(n / 10, w - 1);
    }
  }

  /** Byte-wise order of two numerals of one length (`sort` on child names). */
  ghost predicate LexBefore(s: string, t: string) {
    exists i :: 0 <= i < |s| && i < |t| && s[..i] == t[..i] && s[i] < t[i]
  }

  lemma LexMore(s: string, t: string, c: char, d: char)
    requires |s| == |t| && (LexBefore(s, t) || (s == t && c < d))
    ensures LexBefore(s + [c], t + [d])
  {
    var x, y := s + [c], t + [d];
    if s == t && c < d {
      assert x[..|s|] == s && y[..|s|] == t && x[|s|] < y[|s|];
    } else {
      var i :| 0 <= i < |s| && i < |t| && s[..i] == t[..i] && s[i] < t[i];
      assert x[..i] == s[..i] && y[..i] == t[..i] && x[i] < y[i];
    }
  }

  lemma {:induction false} FixedOrder(a: nat, b: nat, w: nat)
    requires a < b < Pow10(w)
    ensures LexBefore(Fixed(a, w), Fixed(b, w))
  {
    hide LexBefore;
    if w > 0 {
      if a / 10 < b / 10 { FixedOrder(a / 10, b / 10, w - 1); }
      LexMore(Fixed(a / 10, w - 1), Fixed(b / 10, w - 1), Digit(a % 10), Digit(b % 10));
    }
  }

  /** Suffixes of non-negative counters are ten digits and order like the counters. */
  lemma SeqSuffixOrder(a: int, b: int)
    requires 0 <= a < b < 0x8000_0000
    ensures |SeqSuffix(a)| == |SeqSuffix(b)| == 10 && AllDigits(SeqSuffix(a)) && AllDigits(SeqSuffix(b))
    ensures LexBefore(SeqSuffix(a), SeqSuffix(b))
  {
    assert Pow10(5) == 100_000;
    assert Pow10(10) == 100_000 * Pow10(5);
    PadIsFixed(a, 10);
    PadIsFixed(b, 10);
    FixedOrder(a, b, 10);
  }

  // -------------------------------------------------------- segment names

  const SEGMENT_PREFIX := "changelog_"
  const SEGMENT_SUFFIX := ".bin"

  function SegmentName(firstIndex: nat): string {
    SEGMENT_PREFIX + Decimal(firstIndex) + SEGMENT_SUFFIX
  }

  function DigitValue(c: char): nat
    requires IsDigit(c)
  {
    c as int - '0' as int
  }

  function Numeral(s: string): nat
    requires AllDigits(s)
  {
    if s == "" then 0 else 10 * Numeral(s[..|s| - 1]) + DigitValue(s[|s| - 1])
  }

  /** `str::parse::<u64>`: an optional plus sign, at least one digit, no overflow. */
  function ParseU64(s: string): Option<nat> {
    var d := if s != "" && s[0] == '+' then s[1..] else s;
    if d != "" && AllDigits(d) && Numeral(d) < 0x1_0000_0000_0000_0000
    then Some(Numeral(d)) else None
  }

  function ParseSegmentName(name: string): Option<nat> {
    if !(SEGMENT_PREFIX <= name) then None
    else
      var rest := name[|SEGMENT_PREFIX|..];
      if |rest| < |SEGMENT_SUFFIX| || rest[|rest| - |SEGMENT_SUFFIX|..] != SEGMENT_SUFFIX then None
      else ParseU64(rest[..|rest| - |SEGMENT_SUFFIX|])
  }

  lemma {:induction false} NumeralOfDecimal(n: nat)
    ensures Numeral(Decimal(n)) == n
  {
    var s := Decimal(n);
    if n < 10 {
      assert s[..0] == "";
    } else {
      assert s[..|s| - 1] == Decimal(n / 10);
      NumeralOfDecimal(n / 10);
    }
  }

  /** The directory scan reads back exactly the index that named the file. */
  lemma SegmentNameRoundTrip(i: nat)
    ensures ParseSegmentName(SegmentName(i)) == if i < 0x1_0000_0000_0000_0000 then Some(i) else None
  {
    var name, d := SegmentName(i), Decimal(i);
    var rest := name[|SEGMENT_PREFIX|..];
    assert rest == d + SEGMENT_SUFFIX;
    assert rest[..|rest| - |SEGMENT_SUFFIX|] == d;
    assert rest[|rest| - |SEGMENT_SUFFIX|..] == SEGMENT_SUFFIX;
    assert IsDigit(d[0]);
    NumeralOfDecimal(i);
  }

  lemma SegmentNameInjective(i: nat, j: nat)
    requires SegmentName(i) == SegmentName(j)
    ensures i == j
  {
    var name := SegmentName(i);
    assert name[|SEGMENT_PREFIX|..|name| - |SEGMENT_SUFFIX|] == Decimal(i);
    assert name[|SEGMENT_PREFIX|..|name| - |SEGMENT_SUFFIX|] == Decimal(j);
    NumeralOfDecimal(i);
    NumeralOfDecimal(j);
  }

  lemma {:induction false} LeadingZero(s: string)
    requires AllDigits(s)
    ensures AllDigits("0" + s) && Numeral("0" + s) == Numeral(s)
  {
    var t := "0" + s;
    if s == "" {
      assert t[..0] == "" && t[0] == '0';
    } else {
      var n := |s| - 1;
      assert t[..|t| - 1] == "0" + s[..n] && t[|t| - 1] == s[n];
      LeadingZero(s[..n]);
    }
  }

  lemma {:induction false} PaddedValue(s: string, w: nat)
    requires AllDigits(s)
    ensures Numeral(PadLeft(s, w)) == Numeral(s)
    decreases w - |s|
  {
    if |s| < w {
      LeadingZero(s);
      PaddedValue("0" + s, w);
    }
  }

  /** The suffix is the counter, in decimal, after its sign. */
  lemma SeqSuffixValue(n: int)
    ensures var s := SeqSuffix(n);
      if n >= 0 then AllDigits(s) && Numeral(s) == n
      else s != "" && s[0] == '-' && AllDigits(s[1..]) && Numeral(s[1..]) == -n
  {
    var m := if n >= 0 then n else -n;
    NumeralOfDecimal(m);
    PaddedValue(Decimal(m), if n >= 0 then 10 else 9);
    if n < 0 { assert SeqSuffix(n)[1..] == PadLeft(Decimal(m), 9); }
  }
}
