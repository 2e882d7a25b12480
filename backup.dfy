/**
  The name of the backup written when the main file would be overwritten:
  the main file's stem, a hyphen, the date as `%Y%m%d` and ".bkp".
*/
module Backup {

  import opened Paths

  /** The current date, passed in instead of read from the clock. */
  datatype Date = Date(year: int, month: int, day: int)

  /**
    Bounds on the date's fields: a four-digit year, a month and a day of
    month; the day is not checked against the month's length.
  */
  predicate ValidDate(d: Date) {
    1 <= d.year <= 9999 && 1 <= d.month <= 12 && 1 <= d.day <= 31
  }

  function Pow10(w: nat): (r: nat)
    ensures r >= 1
  {
    if w == 0 then 1 else 10 * Pow10(w - 1)
  }

  predicate IsDigit(c: char) {
    '0' <= c <= '9'
  }

  predicate AllDigits(s: string) {
    forall i :: 0 <= i < |s| ==> IsDigit(s[i])
  }

  /** `n` in decimal, zero-padded on the left to `width` digits. */
  function Digits(n: nat, width: nat): (s: string)
    requires n < Pow10(width)
    ensures |s| == width && AllDigits(s)
  {
    if width == 0 then ""
    else Digits(n / 10, width - 1) + [('0' as int + n % 10) as char]
  }

  /** The number a string of decimal digits denotes. */
  function Value(s: string): nat
    requires AllDigits(s)
  {
    if s == [] then 0 else 10 * Value(s[..|s| - 1]) + (s[|s| - 1] as int - '0' as int)
  }

  lemma {:induction false} ValueOfDigits(n: nat, width: nat)
    requires n < Pow10(width)
    ensures Value(Digits(n, width)) == n
  {
    if width > 0 {
      var s := Digits(n, width);
      assert s[..|s| - 1] == Digits(n / 10, width - 1);
      ValueOfDigits(n / 10, width - 1);
    }
  }

  /** The `%Y%m%d` rendering of a date: eight digits. */
  function Stamp(d: Date): (s: string)
    requires ValidDate(d)
    ensures |s| == 8 && AllDigits(s)
  {
    Digits(d.year, 4) + Digits(d.month, 2) + Digits(d.day, 2)
  }

  /** Reading an eight-digit stamp back into a date. */
  function ReadStamp(s: string): Date
    requires |s| == 8 && AllDigits(s)
  {
    Date(Value(s[..4]), Value(s[4..6]), Value(s[6..]))
  }

  /** The stamp loses nothing: the date can be read back from it. */
  lemma StampRoundTrip(d: Date)
    requires ValidDate(d)
    ensures ReadStamp(Stamp(d)) == d
  {
    var s := Stamp(d);
    assert s[..4] == Digits(d.year, 4);
    assert s[4..6] == Digits(d.month, 2);
    assert s[6..] == Digits(d.day, 2);
    ValueOfDigits(d.year, 4);
    ValueOfDigits(d.month, 2);
    ValueOfDigits(d.day, 2);
  }

  /** `f"{stem}-{date}.bkp"` for a main file called `mainName`. */
  function BackupName(mainName: string, d: Date): (b: string)
    requires ValidDate(d)
    ensures |b| == |Stem(mainName)| + 13
    ensures b[..|Stem(mainName)|] == Stem(mainName) && b[|Stem(mainName)|] == '-'
    ensures b[|Stem(mainName)| + 1..|Stem(mainName)| + 9] == Stamp(d)
    ensures b[|b| - 4..] == ".bkp"
  {
    Stem(mainName) + "-" + Stamp(d) + ".bkp"
  }

  /**
    For one main file, two runs write the same backup exactly when they
    run on the same day: a same-day rerun overwrites the earlier backup.
  */
  lemma BackupNameSameDay(mainName: string, d1: Date, d2: Date)
    requires ValidDate(d1) && ValidDate(d2)
    ensures BackupName(mainName, d1) == BackupName(mainName, d2) <==> d1 == d2
  {
    if BackupName(mainName, d1) == BackupName(mainName, d2) {
      var k := |Stem(mainName)| + 1;
      assert Stamp(d1) == BackupName(mainName, d1)[k..k + 8];
      assert Stamp(d2) == BackupName(mainName, d2)[k..k + 8];
      StampRoundTrip(d1);
      StampRoundTrip(d2);
    }
  }

  /** The backup never has the name of the file it backs up. */
  lemma BackupNameIsNew(mainName: string, d: Date)
    requires ValidDate(d)
    ensures BackupName(mainName, d) != mainName
  {
  }
}
