/** The rows of the `results` table as the client receives them, and the two
    coercions the ranking applies to them: a category becomes its string form, or
    the "unspecified" label when it is missing or empty, and a missing grade
    counts as zero. */
module Records {
  import opened Seqs
  import opened ObjectKeys

  /** The `category` column as received: missing (`null`/`undefined`), a number, or
      a string. */
  datatype CategoryValue = Absent | Number(n: int) | Text(s: string)

  /** One row of the `results` table. `no` is the student number. */
  datatype DbRow = DbRow(no: int, name: string, category: CategoryValue, grade: Option<int>)

  /** The "unspecified" category, the Arabic words for "not specified". */
  const Unspecified: string := "\U{063A}\U{064A}\U{0631} \U{0645}\U{062D}\U{062F}\U{062F}"

  function DigitChar(d: nat): (c: char)
    requires d < 10
    ensures IsDigit(c) && DigitValue(c) == d
  {
    "0123456789"[d]
  }

  /** Decimal digits of a natural number, as `Number.prototype.toString` writes them
      for an integer below 2^53; the exponent form it uses from 10^21 on and
      fractional numbers are not modelled. */
  function NatToString(n: nat): (r: string)
    ensures |r| >= 1
    ensures forall i :: 0 <= i < |r| ==> IsDigit(r[i])
    ensures |r| > 1 ==> r[0] != '0'
    ensures n == 0 <==> r == "0"
  {
    if n < 10 then [DigitChar(n)] else NatToString(n / 10) + [DigitChar(n % 10)]
  }

  /** The digits `NatToString` writes denote the number written. */
  lemma {:induction false} NatToStringValue(n: nat)
    ensures DigitsValue(NatToString(n)) == n
  {
    var r := NatToString(n);
    if n < 10 {
      assert r[..|r| - 1] == [];
    } else {
      assert r[..|r| - 1] == NatToString(n / 10);
      NatToStringValue(n / 10);
    }
  }

  /** `Number.prototype.toString` on an integer. */
  function IntToString(n: int): (r: string)
    ensures r != []
  {
    if n < 0 then "-" + NatToString(-n) else NatToString(n)
  }

  /** The grouping key of a row: the category as a string, or `Unspecified` when the
      category is missing or is the empty string. */
  function CategoryKey(c: CategoryValue): (k: string)
    ensures k != []
    ensures c.Absent? ==> k == Unspecified
    ensures c.Text? ==> k == if c.s == "" then Unspecified else c.s
  {
    match c
    case Absent => Unspecified
    case Number(n) => IntToString(n)
    case Text(s) => if s == "" then Unspecified else s
  }

  /** A non-negative numeric category becomes the canonical numeral of its value, so
      it is an array-index key exactly when the value is at most 2^32 - 2. */
  lemma NumberKey(n: int)
    requires n >= 0
    ensures IsCanonicalDigits(CategoryKey(Number(n))) && DigitsValue(CategoryKey(Number(n))) == n
    ensures IsArrayIndex(CategoryKey(Number(n))) <==> n <= MaxArrayIndex
  {
    NatToStringValue(n);
  }

  /** Different numeric categories have different grouping keys. */
  lemma NumberKeysDistinct(m: int, n: int)
    requires m != n
    ensures CategoryKey(Number(m)) != CategoryKey(Number(n))
  {
    assert CategoryKey(Number(m)) == IntToString(m);
    assert CategoryKey(Number(n)) == IntToString(n);
    IntToStringRoundTrip(m);
    IntToStringRoundTrip(n);
  }

  /** Reads back what `IntToString` writes: an optional minus sign and digits. */
  function ParseInt(s: string): int {
    if |s| > 0 && s[0] == '-' then -(DigitsValue(s[1..]) as int) else DigitsValue(s)
  }

  /** `IntToString` loses nothing: reading its output back gives the number. */
  lemma IntToStringRoundTrip(n: int)
    ensures ParseInt(IntToString(n)) == n
  {
    var s := IntToString(n);
    if n < 0 {
      var p: nat := -n;
      NatToStringValue(p);
      assert s[0] == '-' && s[1..] == NatToString(p);
    } else {
      NatToStringValue(n);
      assert IsDigit(s[0]);
    }
  }

  /** `grade || 0`: a missing grade counts as 0. */
  function GradeOrZero(g: Option<int>): int {
    match g
    case None => 0
    case Some(v) => v
  }

  function Key(r: DbRow): string { CategoryKey(r.category) }

  /** The grouping keys of the rows, in row order. */
  function Keys(rows: seq<DbRow>): (ks: seq<string>)
    ensures |ks| == |rows|
    ensures forall i :: 0 <= i < |rows| ==> ks[i] == Key(rows[i])
  {
    seq(|rows|, i requires 0 <= i < |rows| => Key(rows[i]))
  }
}
