/**
 * The text FetchMeetups returns: both counts written in decimal inside a
 * fixed Portuguese sentence.
 */
module Report {

  predicate IsDigit(c: char)
  {
    '0' <= c <= '9'
  }

  predicate AllDigits(s: string)
  {
    forall i :: 0 <= i < |s| ==> IsDigit(s[i])
  }

  function DigitChar(d: nat): (c: char)
    requires d < 10
    ensures IsDigit(c) && c as int - '0' as int == d
  {
    ['0', '1', '2', '3', '4', '5', '6', '7', '8', '9'][d]
  }

  /** The decimal text of a count, as string interpolation writes it. */
  function Decimal(n: nat): (s: string)
    ensures |s| > 0 && AllDigits(s)
    ensures |s| > 1 ==> s[0] != '0'
  {
    if n < 10 then [DigitChar(n)]
    else Decimal(n / 10) + [DigitChar(n % 10)]
  }

  /** Reads a decimal text back. */
  function ParseDecimal(s: string): nat
    requires AllDigits(s)
  {
    if s == [] then 0
    else ParseDecimal(s[..|s| - 1]) * 10 + (s[|s| - 1] as int - '0' as int)
  }

  /** Reading the decimal text of a count gives the count back. */
  lemma {:induction false} ParseDecimalOfDecimal(n: nat)
    ensures ParseDecimal(Decimal(n)) == n
  {
    if n >= 10 {
      var s := Decimal(n);
      assert s[..|s| - 1] == Decimal(n / 10);
      ParseDecimalOfDecimal(n / 10);
    }
  }

  const Found: string := "Foram encontradas "
  const NewMeetups: string := " novas meetups e "
  const NewVideos: string := " novos vídeos relacionados"

  /** The summary of one run of the job. */
  function Summary(newMeetups: nat, newVideos: nat): (s: string)
    ensures Found <= s
    ensures |s| >= |NewVideos| && s[|s| - |NewVideos|..] == NewVideos
  {
    Found + Decimal(newMeetups) + NewMeetups + Decimal(newVideos) + NewVideos
  }

  /** The length of the run of digits a text starts with. */
  function DigitRun(s: string): (n: nat)
    ensures n <= |s|
  {
    if s == [] || !IsDigit(s[0]) then 0 else 1 + DigitRun(s[1..])
  }

  /** A digit run followed by a non-digit is read back at its own length. */
  lemma {:induction false} DigitRunOf(d: string, t: string)
    requires AllDigits(d) && |t| > 0 && !IsDigit(t[0])
    ensures DigitRun(d + t) == |d|
  {
    if d != [] {
      assert (d + t)[1..] == d[1..] + t;
      DigitRunOf(d[1..], t);
    }
  }

  /** Two digit runs each followed by a non-digit can only be split one way. */
  lemma DigitRunSplit(d1: string, t1: string, d2: string, t2: string)
    requires AllDigits(d1) && AllDigits(d2)
    requires |t1| > 0 && !IsDigit(t1[0]) && |t2| > 0 && !IsDigit(t2[0])
    requires d1 + t1 == d2 + t2
    ensures d1 == d2 && t1 == t2
  {
    DigitRunOf(d1, t1);
    DigitRunOf(d2, t2);
    assert d1 == (d1 + t1)[..|d1|];
    assert d2 == (d2 + t2)[..|d2|];
    assert t1 == (d1 + t1)[|d1|..];
    assert t2 == (d2 + t2)[|d2|..];
  }

  /** Equal texts with a common prefix agree after it. */
  lemma DropPrefix(p: string, x: string, y: string)
    requires p + x == p + y
    ensures x == y
  {
    assert x == (p + x)[|p|..];
    assert y == (p + y)[|p|..];
  }

  /** A text built left to right is the first part followed by the rest. */
  lemma Regroup(a: string, b: string, c: string, d: string, e: string)
    ensures a + b + c + d + e == a + (b + (c + (d + e)))
  {
  }

  /** The digit runs of two summary texts that are equal are equal. */
  lemma SummaryTextSplit(da: string, db: string, dc: string, dd: string)
    requires AllDigits(da) && AllDigits(db) && AllDigits(dc) && AllDigits(dd)
    requires Found + da + NewMeetups + db + NewVideos == Found + dc + NewMeetups + dd + NewVideos
    ensures da == dc && db == dd
  {
    var tail1 := NewMeetups + (db + NewVideos);
    var tail2 := NewMeetups + (dd + NewVideos);
    Regroup(Found, da, NewMeetups, db, NewVideos);
    Regroup(Found, dc, NewMeetups, dd, NewVideos);
    DropPrefix(Found, da + tail1, dc + tail2);
    assert tail1[0] == ' ' && tail2[0] == ' ';
    DigitRunSplit(da, tail1, dc, tail2);
    DropPrefix(NewMeetups, db + NewVideos, dd + NewVideos);
    assert NewVideos[0] == ' ';
    DigitRunSplit(db, NewVideos, dd, NewVideos);
  }

  /** The summary embeds both counts: it can be read back into them. */
  lemma SummaryDeterminesCounts(a: nat, b: nat, c: nat, d: nat)
    ensures Summary(a, b) == Summary(c, d) ==> a == c && b == d
  {
    if Summary(a, b) == Summary(c, d) {
      SummaryTextSplit(Decimal(a), Decimal(b), Decimal(c), Decimal(d));
      ParseDecimalOfDecimal(a);
      ParseDecimalOfDecimal(b);
      ParseDecimalOfDecimal(c);
      ParseDecimalOfDecimal(d);
    }
  }
}
