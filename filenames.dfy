/** Segment file names: `<baseOffset>.store` and `<baseOffset>.index`, and
    the way bootstrap reads a base offset back out of a directory entry. */
module FileNames {
  import opened Bytes

  const StoreExt: string := ".store"
  const IndexExt: string := ".index"
  /** The largest `uint64`: what `strconv.ParseUint` returns on overflow. */
  const MaxU64: u64 := 0xFFFF_FFFF_FFFF_FFFF
  /** `maxUint64/10 + 1`: the accumulator bound above which one more digit overflows. */
  const Cutoff: nat := 1844674407370955162

  predicate IsDigit(c: char)
  {
    '0' as int <= c as int <= '9' as int
  }

  function DigitChar(d: nat): (c: char)
    requires d < 10
    ensures IsDigit(c) && c as int - '0' as int == d
  {
    ('0' as int + d) as char
  }

  /** `fmt.Sprintf("%d", n)`: the decimal digits of `n`, without leading zeros. */
  function Decimal(n: nat): (s: string)
    ensures |s| > 0
    ensures forall i :: 0 <= i < |s| ==> IsDigit(s[i])
    ensures DecimalValue(s) == n
  {
    if n < 10 then [DigitChar(n)] else Decimal(n / 10) + [DigitChar(n % 10)]
  }

  /** The number whose decimal digits are `s`, most significant first. */
  function DecimalValue(s: string): nat
    requires forall i :: 0 <= i < |s| ==> IsDigit(s[i])
  {
    if |s| == 0 then 0
    else
      assert IsDigit(s[|s| - 1]);
      DecimalValue(s[..|s| - 1]) * 10 + (s[|s| - 1] as int - '0' as int)
  }

  /** `strconv.ParseUint(s, 10, 0)` on a 64-bit platform, with its error
      dropped as bootstrap does: 0 for an empty string or a non-digit, the
      largest `uint64` once the value overflows. */
  function ParseUint(s: string): u64
  {
    if |s| == 0 then 0 else ParseDigits(s, 0, 0)
  }

  /** The digit loop of `ParseUint` from index `i` with the value
      accumulated so far: each character is checked to be a digit before the
      overflow checks of that step. */
  function ParseDigits(s: string, i: nat, acc: u64): u64
    requires i <= |s|
    decreases |s| - i
  {
    if i == |s| then acc
    else if !IsDigit(s[i]) then 0
    else if acc >= Cutoff then MaxU64
    else
      var n1 := acc * 10 + (s[i] as int - '0' as int);
      if n1 > MaxU64 then MaxU64 else ParseDigits(s, i + 1, n1)
  }

  /** The digit loop continued from a prefix of a digit string, with that
      prefix's value as the accumulator, ends with the value of the whole
      string when it fits in 64 bits and with the largest `uint64` otherwise. */
  lemma {:induction false} ParseDigitsValue(s: string, i: nat)
    requires i <= |s| && forall j :: 0 <= j < |s| ==> IsDigit(s[j])
    requires DecimalValue(s[..i]) <= MaxU64
    ensures ParseDigits(s, i, DecimalValue(s[..i]))
            == if DecimalValue(s) <= MaxU64 then DecimalValue(s) else MaxU64
    decreases |s| - i
  {
    if i == |s| {
      assert s[..i] == s;
    } else {
      assert s[..i + 1][..i] == s[..i];
      var acc := DecimalValue(s[..i]);
      var d := s[i] as int - '0' as int;
      assert DecimalValue(s[..i + 1]) == acc * 10 + d;
      PrefixValue(s, i + 1);
      if acc < Cutoff && acc * 10 + d <= MaxU64 {
        ParseDigitsValue(s, i + 1);
      }
    }
  }

  /** A longer digit prefix never has a smaller value. */
  lemma {:induction false} PrefixValue(s: string, i: nat)
    requires i <= |s| && forall j :: 0 <= j < |s| ==> IsDigit(s[j])
    ensures DecimalValue(s[..i]) <= DecimalValue(s)
    decreases |s| - i
  {
    if i < |s| {
      PrefixValue(s, i + 1);
      assert s[..i + 1][..i] == s[..i];
    } else {
      assert s[..i] == s;
    }
  }

  /** `ParseUint` on a non-empty string of digits: its value, or the largest
      `uint64` when the value does not fit. */
  lemma ParseDigitString(s: string)
    requires |s| > 0 && forall j :: 0 <= j < |s| ==> IsDigit(s[j])
    ensures ParseUint(s) == if DecimalValue(s) <= MaxU64 then DecimalValue(s) else MaxU64
  {
    assert s[..0] == [];
    ParseDigitsValue(s, 0);
  }

  /** Round trip of a base offset through its decimal name. */
  lemma ParseDecimal(n: u64)
    ensures ParseUint(Decimal(n)) == n
  {
    ParseDigitString(Decimal(n));
  }

  /** `path.Ext(name)`: the suffix starting at the last dot of the final
      slash-separated element, or the empty string when there is none. */
  function Ext(name: string): (e: string)
    ensures e == [] || (e[0] == '.' && exists i :: 0 <= i <= |name| && name[i..] == e)
  {
    ExtBefore(name, |name|)
  }

  /** The scan of `path.Ext` from index `i - 1` down to the first slash. */
  function ExtBefore(name: string, i: nat): (e: string)
    requires i <= |name|
    ensures e == [] || (e[0] == '.' && exists j :: 0 <= j <= |name| && name[j..] == e)
  {
    if i == 0 || name[i - 1] == '/' then []
    else if name[i - 1] == '.' then name[i - 1..]
    else ExtBefore(name, i - 1)
  }

  /** `strings.TrimSuffix(s, suffix)`. */
  function TrimSuffix(s: string, suffix: string): (r: string)
    ensures |suffix| <= |s| && s[|s| - |suffix|..] == suffix ==> r + suffix == s
    ensures !(|suffix| <= |s| && s[|s| - |suffix|..] == suffix) ==> r == s
  {
    if |suffix| <= |s| && s[|s| - |suffix|..] == suffix then s[..|s| - |suffix|] else s
  }

  /** `sub` occurs in `s` starting at index `i`. */
  predicate OccursAt(s: string, sub: string, i: nat)
  {
    i + |sub| <= |s| && s[i..i + |sub|] == sub
  }

  /** `strings.Contains(s, sub)`. */
  predicate Contains(s: string, sub: string)
  {
    exists i: nat | i <= |s| :: OccursAt(s, sub, i)
  }

  /** The file holding a segment's store, `fmt.Sprintf("%d%s", base, ".store")`. */
  function StoreName(base: u64): string
  {
    Decimal(base) + StoreExt
  }

  /** The file holding a segment's index. */
  function IndexName(base: u64): string
  {
    Decimal(base) + IndexExt
  }

  /** The base offset bootstrap reads from a directory entry: the name
      without its extension, parsed as a decimal number. */
  function BaseOf(name: string): u64
  {
    ParseUint(TrimSuffix(name, Ext(name)))
  }

  /** Bootstrap's filter: only names containing `.store` contribute a base offset. */
  predicate IsStoreEntry(name: string)
  {
    Contains(name, StoreExt)
  }

  /** The base offsets bootstrap collects from `listing`, in listing order. */
  function StoreBases(listing: seq<string>): (r: seq<u64>)
    ensures |r| <= |listing|
  {
    if |listing| == 0 then []
    else StoreBases(listing[..|listing| - 1])
         + (if IsStoreEntry(listing[|listing| - 1]) then [BaseOf(listing[|listing| - 1])] else [])
  }

  /** A name ending in a dot followed by neither dots nor slashes has that
      ending as its extension. */
  lemma {:induction false} ExtOfSuffix(d: string, ext: string, i: nat)
    requires |ext| > 0 && ext[0] == '.' && forall j :: 1 <= j < |ext| ==> ext[j] != '.' && ext[j] != '/'
    requires |d| < i <= |d| + |ext|
    ensures ExtBefore(d + ext, i) == ext
    decreases i
  {
    var name := d + ext;
    if i - 1 == |d| {
      assert name[i - 1..] == ext;
    } else {
      assert name[i - 1] == ext[i - 1 - |d|];
      ExtOfSuffix(d, ext, i - 1);
    }
  }

  /** A segment's store file is picked up by bootstrap and parses back to its base. */
  lemma StoreNameBase(base: u64)
    ensures IsStoreEntry(StoreName(base))
    ensures BaseOf(StoreName(base)) == base
  {
    var d := Decimal(base);
    var name := d + StoreExt;
    assert OccursAt(name, StoreExt, |d|);
    ExtOfSuffix(d, StoreExt, |name|);
    assert TrimSuffix(name, StoreExt) == d by {
      assert name[|name| - |StoreExt|..] == StoreExt;
    }
    ParseDecimal(base);
  }

  /** A segment's index file is not picked up by bootstrap: digits hold no
      dot, and `.index` is not `.store`. */
  lemma IndexNameSkipped(base: u64)
    ensures !IsStoreEntry(IndexName(base))
  {
    var d := Decimal(base);
    var name := d + IndexExt;
    forall i: nat | i <= |name|
      ensures !OccursAt(name, StoreExt, i)
    {
      if i + |StoreExt| <= |name| {
        if i < |d| {
          assert name[i..i + |StoreExt|][0] == d[i] != StoreExt[0];
        } else {
          assert name[i..i + |StoreExt|][1] == IndexExt[1] != StoreExt[1];
        }
      }
    }
  }

  /** A store name bootstrap picks up whose base is not a number gives offset 0. */
  lemma NonNumericStoreName()
    ensures IsStoreEntry("foo.store") && BaseOf("foo.store") == 0
  {
    assert "foo.store" == "foo" + StoreExt;
    ExtOfSuffix("foo", StoreExt, 9);
    assert OccursAt("foo.store", StoreExt, 3);
    assert TrimSuffix("foo.store", StoreExt) == "foo";
  }

  /** A dotted suffix after `.store` becomes the extension, so what remains,
      `7.store`, fails to parse and the name also gives offset 0. */
  lemma DottedStoreName()
    ensures IsStoreEntry("7" + StoreExt + ".bak") && BaseOf("7" + StoreExt + ".bak") == 0
  {
    var d := "7" + StoreExt;
    var bak := ".bak";
    assert |d| == 7 && |bak| == 4;
    assert bak[1] == 'b' && bak[2] == 'a' && bak[3] == 'k';
    ExtOfSuffix(d, bak, 11);
    var name := d + bak;
    assert OccursAt(name, StoreExt, 1);
    assert TrimSuffix(name, bak) == d;
    assert ParseUint(d) == ParseDigits(d, 1, 7) == 0;
  }

  /** `ParseUint` on an empty string, a number, and a stray character. */
  lemma ParseExamples()
    ensures ParseUint("") == 0 && ParseUint("12") == 12 && ParseUint("1x") == 0
  {
    assert ParseUint("12") == ParseDigits("12", 1, 1) == 12;
    assert ParseUint("1x") == ParseDigits("1x", 1, 1) == 0;
  }
}
