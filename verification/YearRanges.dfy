/** Copyright years: a set of years printed as comma-separated ranges, and such text read back. */
module YearRanges {
  import opened Common

  datatype Range = Range(first: int, second: int)

  predicate Within(y: int, r: Range) { r.first <= y <= r.second }

  function Years(r: Range): (s: set<int>)
    ensures forall y :: y in s <==> Within(y, r)
  {
    set y: int | r.first <= y <= r.second && Within(y, r)
  }

  function Covered(rs: seq<Range>): set<int> {
    if rs == [] then {} else Covered(rs[..|rs| - 1]) + Years(rs[|rs| - 1])
  }

  /** Ranges in order, none empty, with at least one missing year between any two. */
  ghost predicate Separated(rs: seq<Range>) {
    && (forall i :: 0 <= i < |rs| ==> rs[i].first <= rs[i].second)
    && (forall i, j :: 0 <= i < j < |rs| ==> rs[i].second + 1 < rs[j].first)
  }

  lemma {:induction false} InCovered(rs: seq<Range>, y: int)
    ensures y in Covered(rs) <==> exists i :: 0 <= i < |rs| && y in Years(rs[i])
  {
    if rs == [] {
    } else {
      var n := |rs| - 1;
      InCovered(rs[..n], y);
      if y in Covered(rs[..n]) {
        var i :| 0 <= i < n && y in Years(rs[..n][i]);
        assert y in Years(rs[i]);
      }
      if i :| 0 <= i < |rs| && y in Years(rs[i]) {
        assert i < n ==> rs[..n][i] == rs[i];
      }
    }
  }

  /** Separated ranges are maximal: the years next to a range are not in the set. */
  lemma RangesAreMaximal(rs: seq<Range>, i: nat)
    requires Separated(rs) && i < |rs|
    ensures rs[i].first - 1 !in Covered(rs) && rs[i].second + 1 !in Covered(rs)
    ensures Years(rs[i]) <= Covered(rs)
  {
    InCovered(rs, rs[i].first - 1);
    InCovered(rs, rs[i].second + 1);
    forall y | y in Years(rs[i])
      ensures y in Covered(rs)
    {
      InCovered(rs, y);
    }
  }

  // ---------------------------------------------------------------- decimal text

  predicate IsDigit(c: char) { '0' <= c <= '9' }

  predicate AllDigits(s: string) { forall i :: 0 <= i < |s| ==> IsDigit(s[i]) }

  /** Space, tab to carriage return, and the four separators from U+001C on. */
  predicate IsSpace(c: char) { c == ' ' || '\t' <= c <= '\r' || '\U{001c}' <= c <= '\U{001f}' }

  function DigitOf(d: nat): (c: char)
    requires d < 10
    ensures IsDigit(c) && c as int - '0' as int == d
  {
    ('0' as int + d) as char
  }

  function NatValue(s: string): nat
    requires AllDigits(s)
  {
    if s == "" then 0 else 10 * NatValue(s[..|s| - 1]) + (s[|s| - 1] as int - '0' as int)
  }

  function DecimalNat(n: nat): (s: string)
    ensures |s| >= 1 && AllDigits(s) && NatValue(s) == n
  {
    if n < 10 then
      assert [DigitOf(n)][..0] == "";
      [DigitOf(n)]
    else
      var front := DecimalNat(n / 10);
      assert (front + [DigitOf(n % 10)])[..|front|] == front;
      front + [DigitOf(n % 10)]
  }

  function Decimal(n: int): string {
    if n < 0 then "-" + DecimalNat(-n) else DecimalNat(n)
  }

  lemma DecimalExample()
    ensures Decimal(2005) == "2005" && Decimal(-98) == "-98"
  {
    assert DecimalNat(20) == "20";
    assert DecimalNat(200) == "200";
  }

  /** Four digits are exactly what the numbers from 1000 to 9999 need. */
  lemma FourDigits(n: nat)
    ensures |DecimalNat(n)| == 4 <==> 1000 <= n <= 9999
    ensures |DecimalNat(n)| >= 4 <==> 1000 <= n
  {
    assert n < 10 ==> |DecimalNat(n)| == 1;
    assert 10 <= n < 100 ==> |DecimalNat(n)| == 1 + |DecimalNat(n / 10)|;
    assert 100 <= n < 1000 ==> |DecimalNat(n)| == 2 + |DecimalNat(n / 10 / 10)|;
    assert 1000 <= n ==> |DecimalNat(n)| == 3 + |DecimalNat(n / 10 / 10 / 10)|;
    var m := n / 10 / 10 / 10;
    assert n < 10000 <==> m < 10;
  }

  lemma {:induction false} FourDigitValue(s: string)
    requires AllDigits(s) && |s| == 4
    ensures NatValue(s) <= 9999
  {
    assert NatValue(s[..3]) == 10 * NatValue(s[..3][..2]) + (s[2] as int - '0' as int);
    assert NatValue(s[..3][..2]) == 10 * NatValue(s[..3][..2][..1]) + (s[1] as int - '0' as int);
    assert NatValue(s[..3][..2][..1]) == 10 * NatValue(s[..3][..2][..1][..0]) + (s[0] as int - '0' as int);
    assert s[..3][..2][..1][..0] == "";
  }

  // ---------------------------------------------------------------- printing

  function RangeText(r: Range): string {
    if r.first == r.second then Decimal(r.first) else Decimal(r.first) + "-" + Decimal(r.second)
  }

  function Texts(rs: seq<Range>): (ts: seq<string>)
    ensures |ts| == |rs| && forall i :: 0 <= i < |rs| ==> ts[i] == RangeText(rs[i])
  {
    seq(|rs|, i requires 0 <= i < |rs| => RangeText(rs[i]))
  }

  function Join(ts: seq<string>): string
    requires ts != []
  {
    if |ts| == 1 then ts[0] else ts[0] + "," + Join(ts[1..])
  }

  ghost predicate Increasing(s: seq<int>) {
    forall i, j :: 0 <= i < j < |s| ==> s[i] < s[j]
  }

  function Elements(s: seq<int>): set<int> { set y | y in s }

  lemma {:induction false} LeastExists(dates: set<int>, some: int) returns (m: int)
    requires some in dates
    ensures m in dates && forall y :: y in dates ==> m <= y
    decreases |dates|
  {
    m := some;
    var rest := dates - {some};
    assert forall y :: y in dates ==> y == some || y in rest;
    if rest == {} {
    } else {
      assert |rest| < |dates|;
      var next := SomeElement(rest);
      var l := LeastExists(rest, next);
      m := if l < some then l else some;
    }
  }

  ghost predicate Below(s: seq<int>, left: set<int>) {
    forall i, y :: 0 <= i < |s| && y in left ==> s[i] < y
  }

  lemma ElementsSnoc(s: seq<int>, m: int)
    ensures Elements(s + [m]) == Elements(s) + {m}
  {
  }

  lemma SortStep(s: seq<int>, left: set<int>, m: int)
    requires Increasing(s) && Below(s, left)
    requires m in left && forall y :: y in left ==> m <= y
    ensures Increasing(s + [m]) && Below(s + [m], left - {m})
    ensures |left - {m}| < |left|
  {
    assert |left| == |left - {m}| + |{m}| by {
      assert left == (left - {m}) + {m};
    }
  }

  /** The set as a sorted list. */
  method SortDates(dates: set<int>) returns (s: seq<int>)
    ensures Increasing(s) && Elements(s) == dates
  {
    s := [];
    var left := dates;
    while left != {}
      invariant Increasing(s) && Below(s, left) && Elements(s) + left == dates
      decreases |left|
    {
      ghost var some := SomeElement(left);
      ghost var l := LeastExists(left, some);
      var m :| m in left && forall y :: y in left ==> m <= y;
      SortStep(s, left, m);
      ElementsSnoc(s, m);
      s, left := s + [m], left - {m};
    }
    assert Elements(s) + {} == Elements(s);
  }

  lemma CoveredSnoc(rs: seq<Range>, r: Range)
    ensures Covered(rs + [r]) == Covered(rs) + Years(r)
  {
    assert (rs + [r])[..|rs|] == rs;
  }

  lemma SeparatedNext(rs: seq<Range>, first: int, second: int, next: int)
    requires Separated(rs + [Range(first, second)]) && next > second
    ensures Separated(rs + [Range(first, next)])
    ensures next > second + 1 ==> Separated(rs + [Range(first, second)] + [Range(next, next)])
  {
    var a := rs + [Range(first, second)];
    var b := rs + [Range(first, next)];
    assert forall i :: 0 <= i < |rs| ==> a[i] == rs[i] && b[i] == rs[i];
    assert a[|rs|].first == first && a[|rs|].second == second;
    forall i | 0 <= i < |rs|
      ensures rs[i].first <= rs[i].second && rs[i].second + 1 < first
    {
      assert a[i].second + 1 < a[|rs|].first;
    }
    assert forall i, j :: 0 <= i < j < |rs| ==> a[i].second + 1 < a[j].first;
  }

  lemma YearsNext(first: int, second: int)
    requires first <= second
    ensures Years(Range(first, second + 1)) == Years(Range(first, second)) + {second + 1}
    ensures Years(Range(second, second)) == {second}
  {
  }

  lemma ElementsPrefix(s: seq<int>, i: nat)
    requires i < |s|
    ensures Elements(s[..i + 1]) == Elements(s[..i]) + {s[i]}
  {
    ElementsSnoc(s[..i], s[i]);
    assert s[..i + 1] == s[..i] + [s[i]];
  }

  /** The loop that merges consecutive years: the ranges printed cover exactly the years, separated. */
  method Merge(s: seq<int>) returns (rs: seq<Range>)
    requires s != [] && Increasing(s)
    ensures rs != [] && Separated(rs) && Covered(rs) == Elements(s)
  {
    rs := [];
    var first, second := s[0], s[0];
    ElementsPrefix(s, 0);
    YearsNext(first, first);
    var i := 1;
    while i < |s|
      invariant 1 <= i <= |s| && second == s[i - 1] && first <= second
      invariant Separated(rs + [Range(first, second)])
      invariant Covered(rs) + Years(Range(first, second)) == Elements(s[..i])
    {
      var next := s[i];
      SeparatedNext(rs, first, second, next);
      ElementsPrefix(s, i);
      if next == second + 1 {
        YearsNext(first, second);
        second := next;
      } else {
        CoveredSnoc(rs, Range(first, second));
        YearsNext(next, next);
        rs := rs + [Range(first, second)];
        first, second := next, next;
      }
      i := i + 1;
    }
    assert s[..i] == s;
    CoveredSnoc(rs, Range(first, second));
    rs := rs + [Range(first, second)];
  }

  // ---------------------------------------------------------------- reading

  /** The text between commas. */
  function Split(s: string): (ts: seq<string>)
    ensures |ts| >= 1
  {
    var i := FirstComma(s);
    if i == |s| then [s] else [s[..i]] + Split(s[i + 1..])
  }

  function FirstComma(s: string): (i: nat)
    ensures i <= |s| && (i < |s| ==> s[i] == ',')
    ensures forall j :: 0 <= j < i ==> s[j] != ','
  {
    if s == "" || s[0] == ',' then 0 else 1 + FirstComma(s[1..])
  }

  function SkipSpace(s: string, i: nat): (j: nat)
    requires i <= |s|
    ensures i <= j <= |s|
    ensures i < |s| && !IsSpace(s[i]) ==> j == i
    decreases |s| - i
  {
    if i < |s| && IsSpace(s[i]) then SkipSpace(s, i + 1) else i
  }

  function StripRight(s: string): string {
    if s != "" && IsSpace(s[|s| - 1]) then StripRight(s[..|s| - 1]) else s
  }

  function Strip(s: string): string { StripRight(s[SkipSpace(s, 0)..]) }

  /** Four digits, a dash with optional space around it, four digits, at the beginning of the text. */
  function MatchRange(s: string): Option<Range> {
    if |s| < 4 || !AllDigits(s[..4]) then None
    else
      var i := SkipSpace(s, 4);
      if i == |s| || s[i] != '-' then None
      else
        var j := SkipSpace(s, i + 1);
        if j + 4 > |s| || !AllDigits(s[j..j + 4]) then None
        else Some(Range(NatValue(s[..4]), NatValue(s[j..j + 4])))
  }

  /** A whole number in decimal, with an optional sign. */
  function ParseInt(s: string): Option<int> {
    var signed := s != "" && (s[0] == '-' || s[0] == '+');
    var body := if signed then s[1..] else s;
    if body == "" || !AllDigits(body) then None
    else
      var value: int := NatValue(body);
      Some(if signed && s[0] == '-' then -value else value)
  }

  /** The years one piece of the text stands for; text that is no date is ignored. */
  function PieceYears(s: string): set<int> {
    match MatchRange(s)
    case Some(r) => Years(r)
    case None =>
      match ParseInt(s)
      case Some(y) => {y}
      case None => {}
  }

  function PieceSets(ts: seq<string>): (sets: seq<set<int>>)
    ensures |sets| == |ts| && forall i :: 0 <= i < |ts| ==> sets[i] == PieceYears(Strip(ts[i]))
  {
    seq(|ts|, i requires 0 <= i < |ts| => PieceYears(Strip(ts[i])))
  }

  function Union(sets: seq<set<int>>): set<int> {
    if sets == [] then {} else Union(sets[..|sets| - 1]) + sets[|sets| - 1]
  }

  function TextYears(s: string): set<int> { Union(PieceSets(Split(s))) }

  method ProcessDates(text: string) returns (output: set<int>)
    ensures output == TextYears(text)
  {
    var dates := Split(text);
    ghost var sets := PieceSets(dates);
    output := {};
    for i := 0 to |dates|
      invariant output == Union(sets[..i])
    {
      assert sets[..i + 1][..i] == sets[..i];
      var years := ProcessDate(Strip(dates[i]));
      output := output + years;
    }
    assert sets[..|sets|] == sets;
  }

  /** One turn of the loop. */
  method ProcessDate(date: string) returns (years: set<int>)
    ensures years == PieceYears(date)
  {
    years := {};
    var m := MatchRange(date);
    if m.Some? {
      years := AddRange(years, m.value);
    } else {
      var y := ParseInt(date);
      if y.Some? {
        years := years + {y.value};
      }
    }
  }

  method AddRange(start: set<int>, r: Range) returns (output: set<int>)
    ensures output == start + Years(r)
  {
    output := start;
    var i := r.first;
    while i < r.second + 1
      invariant r.first <= i && (i <= r.second + 1 || i == r.first)
      invariant output == start + Years(Range(r.first, i - 1))
    {
      assert Years(Range(r.first, i)) == Years(Range(r.first, i - 1)) + {i};
      output := output + {i};
      i := i + 1;
    }
    assert Years(Range(r.first, i - 1)) == Years(r);
  }

  // ---------------------------------------------------------------- reading what was printed

  /** Text with no comma, no space at its ends. */
  ghost predicate Piece(s: string) {
    s != "" && !IsSpace(s[0]) && !IsSpace(s[|s| - 1]) && forall i :: 0 <= i < |s| ==> s[i] != ','
  }

  lemma StripPiece(s: string)
    requires Piece(s)
    ensures Strip(s) == s
  {
    assert s[0..] == s;
  }

  lemma DecimalPiece(n: int)
    ensures Piece(Decimal(n))
  {
  }

  lemma RangeTextPiece(r: Range)
    ensures Piece(RangeText(r))
  {
    DecimalPiece(r.first);
    DecimalPiece(r.second);
  }

  lemma SingleYears(n: int)
    ensures PieceYears(Decimal(n)) == {n}
  {
    var s := Decimal(n);
    if n < 0 {
      assert s[1..] == DecimalNat(-n) && s[0] == '-';
      assert MatchRange(s).None? by {
        assert |s| >= 4 ==> !IsDigit(s[..4][0]);
      }
    } else {
      if |s| > 4 {
        assert IsDigit(s[4]);
      }
      assert MatchRange(s).None?;
      assert IsDigit(s[0]);
    }
  }

  /** A dash after the beginning makes it no whole number. */
  lemma NoInt(s: string, k: nat)
    requires 0 < k < |s| && s[k] == '-'
    ensures ParseInt(s).None?
  {
    assert !IsDigit(s[k]);
    assert s[1..][k - 1] == '-';
  }

  /** What the range pattern makes of a printed range: it fits exactly when the first year has four digits
      and the second at least four, of which it reads the first four. */
  lemma PrintedRangeMatch(a: int, b: int)
    requires a < b
    ensures var s := Decimal(a) + "-" + Decimal(b);
            && (MatchRange(s).Some? <==> 1000 <= a <= 9999)
            && (MatchRange(s).Some? ==> MatchRange(s).value.first == a && MatchRange(s).value.second <= 9999)
            && (1000 <= a && b <= 9999 ==> MatchRange(s) == Some(Range(a, b)))
  {
    var x, y := Decimal(a), Decimal(b);
    var s := x + "-" + y;
    if a < 0 {
      assert s[..4][0] == '-';
    } else {
      FourDigits(a);
      FourDigits(b);
      if |x| < 4 {
        assert |s| >= 4 ==> s[..4][|x|] == '-';
      } else if |x| > 4 {
        assert IsDigit(s[4]);
      } else {
        assert s[..4] == x && s[4] == '-';
        assert IsDigit(y[0]) && s[5] == y[0];
        assert s[5..9] == y[..4];
        FourDigitValue(y[..4]);
        assert |y| == 4 ==> y[..4] == y;
      }
    }
  }

  /** A printed range reads back as part of itself, and as all of it exactly when it is a single year or lies
      within the four-digit years. */
  lemma PrintedRangeYears(r: Range)
    requires r.first <= r.second
    ensures PieceYears(RangeText(r)) <= Years(r)
    ensures PieceYears(RangeText(r)) == Years(r) <==> r.first == r.second || (1000 <= r.first && r.second <= 9999)
  {
    var a, b := r.first, r.second;
    if a == b {
      SingleYears(a);
    } else {
      PrintedRangeMatch(a, b);
      var s := Decimal(a) + "-" + Decimal(b);
      NoInt(s, |Decimal(a)|);
      assert a in Years(r) && b in Years(r);
      if !(1000 <= a && b <= 9999) {
        assert b !in PieceYears(s) || a !in PieceYears(s);
      }
    }
  }

  ghost predicate NoComma(s: string) { forall i :: 0 <= i < |s| ==> s[i] != ',' }

  lemma SplitFirst(t: string, rest: string)
    requires NoComma(t)
    ensures Split(t) == [t] && Split(t + "," + rest) == [t] + Split(rest)
  {
    var s := t + "," + rest;
    assert FirstComma(t) == |t|;
    assert s[|t|] == ',' && forall j :: 0 <= j < |t| ==> s[j] == t[j];
    assert FirstComma(s) == |t|;
    assert s[..|t|] == t && s[|t| + 1..] == rest;
  }

  ghost predicate AllNoComma(ts: seq<string>) { forall i :: 0 <= i < |ts| ==> NoComma(ts[i]) }

  lemma TailNoComma(ts: seq<string>)
    requires AllNoComma(ts) && ts != []
    ensures NoComma(ts[0]) && AllNoComma(ts[1..])
  {
  }

  lemma {:induction false} SplitJoin(ts: seq<string>)
    requires ts != [] && AllNoComma(ts)
    ensures Split(Join(ts)) == ts
  {
    var t, rest := ts[0], ts[1..];
    TailNoComma(ts);
    if rest == [] {
      SplitFirst(t, "");
    } else {
      calc {
        Split(Join(ts));
      ==
        Split(t + "," + Join(rest));
      == { SplitFirst(t, Join(rest)); }
        [t] + Split(Join(rest));
      == { SplitJoin(rest); }
        [t] + rest;
      ==
        ts;
      }
    }
  }

  ghost predicate Readable(r: Range) {
    r.first == r.second || (1000 <= r.first && r.second <= 9999)
  }

  ghost predicate AllReadable(rs: seq<Range>) {
    forall i :: 0 <= i < |rs| ==> Readable(rs[i])
  }

  /** The years read from a range are among it, and all of it if it is readable. */
  ghost predicate ReadFrom(got: set<int>, r: Range) {
    got <= Years(r) && (got == Years(r) <==> Readable(r))
  }

  ghost predicate AllReadFrom(sets: seq<set<int>>, rs: seq<Range>) {
    |sets| == |rs| && forall i :: 0 <= i < |rs| ==> ReadFrom(sets[i], rs[i])
  }

  lemma ReadFromFront(sets: seq<set<int>>, rs: seq<Range>)
    requires Separated(rs) && rs != [] && AllReadFrom(sets, rs)
    ensures Separated(rs[..|rs| - 1]) && AllReadFrom(sets[..|rs| - 1], rs[..|rs| - 1])
    ensures ReadFrom(sets[|rs| - 1], rs[|rs| - 1])
  {
  }

  lemma {:induction false} UnionOfPieces(sets: seq<set<int>>, rs: seq<Range>)
    requires Separated(rs) && AllReadFrom(sets, rs)
    ensures Union(sets) <= Covered(rs)
    ensures Union(sets) == Covered(rs) <==> AllReadable(rs)
  {
    if rs == [] {
    } else {
      var n := |rs| - 1;
      ReadFromFront(sets, rs);
      UnionOfPieces(sets[..n], rs[..n]);
      DisjointLast(rs);
      SubsetsAddUp(Union(sets[..n]), Covered(rs[..n]), sets[n], Years(rs[n]));
      AllReadableLast(rs);
    }
  }

  lemma AllReadableLast(rs: seq<Range>)
    requires rs != []
    ensures AllReadable(rs) <==> AllReadable(rs[..|rs| - 1]) && Readable(rs[|rs| - 1])
  {
    var n := |rs| - 1;
    assert forall i :: 0 <= i < n ==> rs[..n][i] == rs[i];
  }

  lemma DisjointLast(rs: seq<Range>)
    requires Separated(rs) && rs != []
    ensures Covered(rs[..|rs| - 1]) !! Years(rs[|rs| - 1])
  {
    var n := |rs| - 1;
    forall y | y in Covered(rs[..n])
      ensures y !in Years(rs[n])
    {
      InCovered(rs[..n], y);
    }
  }

  lemma SubsetsAddUp(a: set<int>, b: set<int>, c: set<int>, d: set<int>)
    requires a <= b && c <= d && b !! d
    ensures a + c <= b + d
    ensures a + c == b + d <==> a == b && c == d
  {
    if a + c == b + d {
      assert forall y :: y in b ==> y in a + c;
      assert forall y :: y in d ==> y in a + c;
    }
  }

  /**
   Reading the printed years gives the set back exactly when every range of two or more years lies within
   1000 to 9999. In particular it does for every set of four-digit years.
   */
  lemma RoundTripExactlyWhen(rs: seq<Range>)
    requires rs != [] && Separated(rs)
    ensures TextYears(Join(Texts(rs))) == Covered(rs) <==> AllReadable(rs)
  {
    var ts := Texts(rs);
    forall i | 0 <= i < |rs|
      ensures NoComma(ts[i]) && ReadFrom(PieceSets(ts)[i], rs[i])
    {
      RangeTextPiece(rs[i]);
      StripPiece(ts[i]);
      PrintedRangeYears(rs[i]);
    }
    SplitJoin(ts);
    UnionOfPieces(PieceSets(ts), rs);
  }

  // ---------------------------------------------------------------- reading what people write

  /** A piece of text between commas: a year or a range, with white space where it may be, or no date at all. */
  datatype Item =
    | Year(before: string, year: int, after: string)
    | Span(before: string, first: int, left: string, right: string, second: int, after: string)
    | Other(text: string)

  ghost predicate Blank(s: string) {
    forall i :: 0 <= i < |s| ==> s[i] == ' ' || '\t' <= s[i] <= '\r' || '\U{001c}' <= s[i] <= '\U{001f}'
  }

  ghost predicate NoDigit(s: string) { forall i :: 0 <= i < |s| ==> !('0' <= s[i] <= '9') }

  ghost predicate NoDash(s: string) { forall i :: 0 <= i < |s| ==> s[i] != '-' }

  /** Something that is in no number: neither digit nor sign nor white space. */
  ghost predicate HasMark(s: string) {
    exists i :: 0 <= i < |s| && !IsDigit(s[i]) && !IsSpace(s[i]) && s[i] != '+' && s[i] != '-'
  }

  /** Ranges are of four-digit years; what is no date has no digit, or no dash and something else. */
  ghost predicate ItemOk(it: Item) {
    match it
    case Year(before, _, after) => Blank(before) && Blank(after)
    case Span(before, first, left, right, second, after) =>
      && Blank(before) && Blank(left) && Blank(right) && Blank(after)
      && 1000 <= first <= 9999 && 1000 <= second <= 9999
    case Other(text) => NoComma(text) && (NoDigit(text) || (NoDash(text) && HasMark(text)))
  }

  function ItemText(it: Item): string {
    match it
    case Year(before, year, after) => before + Decimal(year) + after
    case Span(before, first, left, right, second, after) =>
      before + (Decimal(first) + left + "-" + right + Decimal(second)) + after
    case Other(text) => text
  }

  ghost predicate Names(it: Item, y: int) {
    match it
    case Year(_, year, _) => y == year
    case Span(_, first, _, _, second, _) => first <= y <= second
    case Other(_) => false
  }

  function ItemTexts(items: seq<Item>): (ts: seq<string>)
    ensures |ts| == |items| && forall i :: 0 <= i < |items| ==> ts[i] == ItemText(items[i])
  {
    seq(|items|, i requires 0 <= i < |items| => ItemText(items[i]))
  }

  lemma {:induction false} SkipBlank(s: string, i: nat, j: nat)
    requires i <= j <= |s| && (forall k :: i <= k < j ==> IsSpace(s[k])) && (j < |s| ==> !IsSpace(s[j]))
    ensures SkipSpace(s, i) == j
    decreases j - i
  {
    if i == j {
    } else {
      SkipBlank(s, i + 1, j);
    }
  }

  lemma {:induction false} StripRightBlank(s: string, after: string)
    requires Blank(after) && (s != "" ==> !IsSpace(s[|s| - 1]))
    ensures StripRight(s + after) == s
  {
    if after == "" {
      assert s + after == s;
    } else {
      var n := |after| - 1;
      assert IsSpace(after[n]);
      assert (s + after)[..|s| + n] == s + after[..n];
      StripRightBlank(s, after[..n]);
    }
  }

  lemma StripPadded(before: string, s: string, after: string)
    requires Blank(before) && Blank(after) && s != "" && !IsSpace(s[0]) && !IsSpace(s[|s| - 1])
    ensures Strip(before + s + after) == s
  {
    var all := before + s + after;
    assert forall k :: 0 <= k < |before| ==> all[k] == before[k] && IsSpace(before[k]);
    assert all[|before|] == s[0];
    SkipBlank(all, 0, |before|);
    assert all[|before|..] == s + after;
    StripRightBlank(s, after);
  }

  /** Four digits `a`, space up to the dash at `i`, and space up to four digits `b` at `j`. */
  ghost predicate Layout(s: string, a: string, i: nat, j: nat, b: string) {
    && 4 == |a| <= i < j && |b| == 4 && |s| == j + 4
    && s[..4] == a && s[i] == '-' && s[j..] == b && AllDigits(a) && AllDigits(b)
    && forall k :: 4 <= k < i || i < k < j ==> IsSpace(s[k])
  }

  lemma LayoutMatches(s: string, a: string, i: nat, j: nat, b: string)
    requires Layout(s, a, i, j, b)
    ensures MatchRange(s) == Some(Range(NatValue(a), NatValue(b)))
  {
    SkipBlank(s, 4, i);
    assert s[j] == s[j..][0];
    SkipBlank(s, i + 1, j);
    assert s[j..j + 4] == s[j..];
  }

  lemma SpanLayout(a: string, left: string, right: string, b: string)
    requires |a| == |b| == 4 && AllDigits(a) && AllDigits(b) && Blank(left) && Blank(right)
    ensures Layout(a + left + "-" + right + b, a, 4 + |left|, 5 + |left| + |right|, b)
  {
    var s := a + left + "-" + right + b;
    var i, j := 4 + |left|, 5 + |left| + |right|;
    forall k | 4 <= k < i || i < k < j
      ensures IsSpace(s[k])
    {
      if k < i {
        assert s[k] == left[k - 4];
      } else {
        assert s[k] == right[k - i - 1];
      }
    }
  }

  lemma SpanMatch(a: string, left: string, right: string, b: string)
    requires |a| == |b| == 4 && AllDigits(a) && AllDigits(b) && Blank(left) && Blank(right)
    ensures MatchRange(a + left + "-" + right + b) == Some(Range(NatValue(a), NatValue(b)))
  {
    SpanLayout(a, left, right, b);
    LayoutMatches(a + left + "-" + right + b, a, 4 + |left|, 5 + |left| + |right|, b);
  }

  lemma SpanYears(first: int, left: string, right: string, second: int)
    requires 1000 <= first <= 9999 && 1000 <= second <= 9999 && Blank(left) && Blank(right)
    ensures PieceYears(Decimal(first) + left + "-" + right + Decimal(second)) == Years(Range(first, second))
  {
    var a, b := Decimal(first), Decimal(second);
    FourDigits(first);
    FourDigits(second);
    SpanMatch(a, left, right, b);
  }

  lemma {:induction false} StripRightPart(s: string)
    ensures StripRight(s) <= s
  {
    if s != "" && IsSpace(s[|s| - 1]) {
      StripRightPart(s[..|s| - 1]);
    } else {
    }
  }

  /** What is stripped is white space at the two ends. */
  lemma {:induction false} StripRightKeeps(s: string, k: nat)
    requires k < |s| && !IsSpace(s[k])
    ensures StripRight(s) <= s && k < |StripRight(s)|
  {
    StripRightPart(s);
    if IsSpace(s[|s| - 1]) {
      StripRightKeeps(s[..|s| - 1], k);
    } else {
    }
  }

  lemma {:induction false} SkipSpaceOnly(s: string, i: nat)
    requires i <= |s|
    ensures forall k :: i <= k < SkipSpace(s, i) ==> IsSpace(s[k])
    decreases |s| - i
  {
    if i < |s| && IsSpace(s[i]) {
      SkipSpaceOnly(s, i + 1);
    } else {
    }
  }

  /** A mark at `k` in text without a dash makes it neither a range nor a whole number. */
  lemma MarkedNoDate(t: string, k: nat)
    requires NoDash(t) && k < |t| && !IsDigit(t[k]) && t[k] != '+'
    ensures PieceYears(t) == {}
  {
    assert MatchRange(t).None?;
    if k > 0 {
      assert t[1..][k - 1] == t[k];
    }
  }

  lemma StripKeeps(s: string, k: nat)
    requires k < |s| && !IsSpace(s[k])
    ensures var n := SkipSpace(s, 0); n <= k < n + |Strip(s)| <= |s| && Strip(s) == s[n..n + |Strip(s)|]
  {
    var n := SkipSpace(s, 0);
    SkipSpaceOnly(s, 0);
    StripRightKeeps(s[n..], k - n);
    var t := Strip(s);
    assert s[n..][..|t|] == s[n..n + |t|];
  }

  lemma MarkedNoYears(s: string)
    requires NoDash(s) && HasMark(s)
    ensures PieceYears(Strip(s)) == {}
  {
    var k :| 0 <= k < |s| && !IsDigit(s[k]) && !IsSpace(s[k]) && s[k] != '+' && s[k] != '-';
    StripKeeps(s, k);
    MarkedNoDate(Strip(s), k - SkipSpace(s, 0));
  }

  lemma NoDigitNoYears(s: string)
    requires NoDigit(s)
    ensures PieceYears(Strip(s)) == {}
  {
    var from := s[SkipSpace(s, 0)..];
    StripRightPart(from);
    var t := Strip(s);
    assert t == from[..|t|];
    assert forall i :: 0 <= i < |t| ==> !IsDigit(t[i]);
    if |t| >= 4 {
      assert !IsDigit(t[..4][0]);
    }
    if |t| >= 2 {
      assert !IsDigit(t[1..][0]);
    }
  }

  ghost predicate ReadsAs(text: string, it: Item) {
    NoComma(text) && forall y :: y in PieceYears(Strip(text)) <==> Names(it, y)
  }

  lemma PaddedNoComma(before: string, s: string, after: string)
    requires Blank(before) && NoComma(s) && Blank(after)
    ensures NoComma(before + s + after)
  {
  }

  lemma YearReads(before: string, year: int, after: string)
    requires Blank(before) && Blank(after)
    ensures ReadsAs(before + Decimal(year) + after, Year(before, year, after))
  {
    DecimalPiece(year);
    StripPadded(before, Decimal(year), after);
    SingleYears(year);
    PaddedNoComma(before, Decimal(year), after);
  }

  lemma SpanPiece(first: int, left: string, right: string, second: int)
    requires Blank(left) && Blank(right)
    ensures Piece(Decimal(first) + left + "-" + right + Decimal(second))
  {
    var a, b := Decimal(first), Decimal(second);
    var s := a + left + "-" + right + b;
    DecimalPiece(first);
    DecimalPiece(second);
    PaddedNoComma(left, "-", right);
    assert s == a + (left + "-" + right) + b;
    assert s[0] == a[0] && s[|s| - 1] == b[|b| - 1];
  }

  lemma SpanReads(it: Item)
    requires it.Span? && ItemOk(it)
    ensures ReadsAs(ItemText(it), it)
  {
    var s := Decimal(it.first) + it.left + "-" + it.right + Decimal(it.second);
    SpanPiece(it.first, it.left, it.right, it.second);
    StripPadded(it.before, s, it.after);
    SpanYears(it.first, it.left, it.right, it.second);
    PaddedNoComma(it.before, s, it.after);
  }

  lemma ItemReads(it: Item)
    requires ItemOk(it)
    ensures ReadsAs(ItemText(it), it)
  {
    match it
    case Year(before, year, after) => YearReads(before, year, after);
    case Span(_, _, _, _, _, _) => SpanReads(it);
    case Other(text) =>
      if NoDigit(text) {
        NoDigitNoYears(text);
      } else {
        MarkedNoYears(text);
      }
  }

  lemma {:induction false} InUnion(sets: seq<set<int>>, y: int)
    ensures y in Union(sets) <==> exists i :: 0 <= i < |sets| && y in sets[i]
  {
    if sets == [] {
    } else {
      var n := |sets| - 1;
      InUnion(sets[..n], y);
      if i :| 0 <= i < n && y in sets[..n][i] {
        assert y in sets[i];
      }
      if i :| 0 <= i < |sets| && y in sets[i] {
        assert i < n ==> sets[..n][i] == sets[i];
      }
    }
  }

  /**
   Reading any list of years, four-digit ranges and pieces that are no dates, joined by commas and with
   white space before, after and around the dash, gives exactly the years named.
   */
  lemma WrittenDatesRead(items: seq<Item>, y: int)
    requires items != [] && forall i :: 0 <= i < |items| ==> ItemOk(items[i])
    ensures y in TextYears(Join(ItemTexts(items))) <==> exists i :: 0 <= i < |items| && Names(items[i], y)
  {
    var ts := ItemTexts(items);
    forall i | 0 <= i < |items|
      ensures NoComma(ts[i]) && (y in PieceSets(ts)[i] <==> Names(items[i], y))
    {
      ItemReads(items[i]);
      assert ReadsAs(ts[i], items[i]);
    }
    SplitJoin(ts);
    InUnion(PieceSets(ts), y);
  }

  // ---------------------------------------------------------------- printing a set

  lemma {:induction false} InJoin(ts: seq<string>, c: char)
    requires ts != [] && c != ','
    ensures c in Join(ts) <==> exists i :: 0 <= i < |ts| && c in ts[i]
  {
    if |ts| == 1 {
    } else {
      var rest := ts[1..];
      InJoin(rest, c);
      if i :| 0 <= i < |rest| && c in rest[i] {
        assert c in ts[i + 1];
      }
      if i :| 0 <= i < |ts| && c in ts[i] {
        assert i > 0 ==> rest[i - 1] == ts[i];
      }
    }
  }

  lemma DashInRange(r: Range)
    requires 0 <= r.first <= r.second
    ensures '-' in RangeText(r) <==> r.first < r.second
  {
    assert forall c :: c in DecimalNat(r.first) ==> IsDigit(c);
    assert forall c :: c in DecimalNat(r.second) ==> IsDigit(c);
  }

  ghost predicate SomeLong(rs: seq<Range>) { exists i :: 0 <= i < |rs| && rs[i].first < rs[i].second }

  ghost predicate SomeConsecutive(dates: set<int>) { exists y :: y in dates && y + 1 in dates }

  lemma DashMeansLong(rs: seq<Range>)
    requires rs != [] && forall i :: 0 <= i < |rs| ==> 0 <= rs[i].first <= rs[i].second
    ensures '-' in Join(Texts(rs)) <==> SomeLong(rs)
  {
    var ts := Texts(rs);
    forall i | 0 <= i < |rs|
      ensures '-' in ts[i] <==> rs[i].first < rs[i].second
    {
      DashInRange(rs[i]);
    }
    InJoin(ts, '-');
    if i :| 0 <= i < |rs| && rs[i].first < rs[i].second {
      assert '-' in ts[i];
    }
  }

  lemma LongMeansConsecutive(rs: seq<Range>)
    requires Separated(rs)
    ensures SomeLong(rs) <==> SomeConsecutive(Covered(rs))
  {
    if i :| 0 <= i < |rs| && rs[i].first < rs[i].second {
      RangesAreMaximal(rs, i);
      assert rs[i].first in Years(rs[i]) && rs[i].first + 1 in Years(rs[i]);
    }
    if y :| y in Covered(rs) && y + 1 in Covered(rs) {
      InCovered(rs, y);
      InCovered(rs, y + 1);
      var i :| 0 <= i < |rs| && y in Years(rs[i]);
      var j :| 0 <= j < |rs| && y + 1 in Years(rs[j]);
      assert i == j;
    }
  }

  /** A dash is printed exactly when two years follow each other, so a single year stands alone. */
  lemma DashMeansConsecutive(rs: seq<Range>)
    requires rs != [] && Separated(rs) && forall y :: y in Covered(rs) ==> y >= 0
    ensures '-' in Join(Texts(rs)) <==> exists y :: y in Covered(rs) && y + 1 in Covered(rs)
  {
    forall i | 0 <= i < |rs|
      ensures 0 <= rs[i].first <= rs[i].second
    {
      RangesAreMaximal(rs, i);
      assert rs[i].first in Years(rs[i]);
    }
    DashMeansLong(rs);
    LongMeansConsecutive(rs);
  }

  /** The same condition on the set: any two years in a row lie within 1000 to 9999. */
  ghost predicate ReadableSet(dates: set<int>) {
    forall y :: y in dates && y + 1 in dates ==> 1000 <= y && y + 1 <= 9999
  }

  lemma ReadableSetMeans(rs: seq<Range>)
    requires Separated(rs)
    ensures AllReadable(rs) <==> ReadableSet(Covered(rs))
  {
    var dates := Covered(rs);
    if AllReadable(rs) {
      forall y | y in dates && y + 1 in dates
        ensures 1000 <= y && y + 1 <= 9999
      {
        InCovered(rs, y);
        InCovered(rs, y + 1);
        var i :| 0 <= i < |rs| && y in Years(rs[i]);
        var j :| 0 <= j < |rs| && y + 1 in Years(rs[j]);
        assert i == j && Readable(rs[i]);
      }
    }
    if ReadableSet(dates) {
      forall i | 0 <= i < |rs|
        ensures Readable(rs[i])
      {
        RangesAreMaximal(rs, i);
        var r := rs[i];
        if r.first < r.second {
          assert r.first in Years(r) && r.first + 1 in Years(r);
          assert r.second - 1 in Years(r) && r.second - 1 + 1 in Years(r);
        }
      }
    }
  }

  /** Two years in a row with fewer than four digits are lost. */
  lemma ShortYearsAreLost()
    ensures Covered([Range(98, 99)]) == {98, 99} && !ReadableSet({98, 99})
    ensures TextYears(Join(Texts([Range(98, 99)]))) != {98, 99}
  {
    var rs := [Range(98, 99)];
    assert rs[..0] == [];
    assert Years(Range(98, 99)) == {98, 99};
    assert Covered(rs) == {98, 99};
    assert 98 in {98, 99} && 98 + 1 in {98, 99};
    RoundTripExactlyWhen(rs);
    ReadableSetMeans(rs);
  }

  /**
   Printing a set of years; the empty set is an error in the source. The text reads back as the set
   exactly when any two consecutive years of the set lie within 1000 to 9999, so for all four-digit years.
   */
  method DateStr(dates: set<int>) returns (text: Option<string>, rs: seq<Range>)
    ensures text.None? <==> dates == {}
    ensures text.Some? ==> rs != [] && Separated(rs) && Covered(rs) == dates && text.value == Join(Texts(rs))
    ensures text.Some? ==> (TextYears(text.value) == dates <==> ReadableSet(dates))
    ensures text.Some? && (forall y :: y in dates ==> 1000 <= y <= 9999) ==> TextYears(text.value) == dates
    ensures text.Some? && (forall y :: y in dates ==> y >= 0) ==>
              ('-' in text.value <==> exists y :: y in dates && y + 1 in dates)
  {
    var s := SortDates(dates);
    if s == [] {
      return None, [];
    }
    assert s[0] in Elements(s);
    rs := Merge(s);
    text := Some(Join(Texts(rs)));
    RoundTripExactlyWhen(rs);
    ReadableSetMeans(rs);
    if forall y :: y in dates ==> y >= 0 {
      DashMeansConsecutive(rs);
    }
  }
}
