/** The pure rules inside data/stock_tracker.py: the conversion of a stock code to
    BaoStock's `exchange.code` form, the adjust-flag mapping of the kline request, and
    the incremental-merge rule that decides which fetched kline rows are stored. The
    BaoStock session, the JSON files, logging and scheduling are left out. */
module StockTracker {
  import opened Wrappers

  /** `str.isspace` of Python: the characters `str.strip()` removes. */
  predicate IsSpace(c: char) {
    var n := c as int;
    || n == 0x20 || 0x09 <= n <= 0x0D || 0x1C <= n <= 0x1F || n == 0x85 || n == 0xA0
    || n == 0x1680 || 0x2000 <= n <= 0x200A || n == 0x2028 || n == 0x2029 || n == 0x202F
    || n == 0x205F || n == 0x3000
  }

  /** Neither end is whitespace. */
  predicate Trimmed(s: string) {
    |s| == 0 || (!IsSpace(s[0]) && !IsSpace(s[|s| - 1]))
  }

  /** The first position from `i` on that does not hold whitespace (`|s|` if there
      is none). */
  function SkipSpaces(s: string, i: nat): (p: nat)
    requires i <= |s|
    ensures i <= p <= |s|
    ensures forall k :: i <= k < p ==> IsSpace(s[k])
    ensures p == |s| || !IsSpace(s[p])
    decreases |s| - i
  {
    if i < |s| && IsSpace(s[i]) then SkipSpaces(s, i + 1) else i
  }

  /** The end of `s[..j]` once its trailing whitespace, down to position `lo`, is
      dropped. */
  function SkipSpacesBack(s: string, lo: nat, j: nat): (q: nat)
    requires lo <= j <= |s|
    ensures lo <= q <= j
    ensures forall k :: q <= k < j ==> IsSpace(s[k])
    ensures q == lo || !IsSpace(s[q - 1])
  {
    if j > lo && IsSpace(s[j - 1]) then SkipSpacesBack(s, lo, j - 1) else j
  }

  /** `r` is the slice `s[p..q]` of `s` and everything outside that slice is
      whitespace. */
  ghost predicate StrippedFrom(s: string, r: string) {
    exists p, q :: 0 <= p <= q <= |s| && r == s[p..q] && Outside(s, p, q)
  }

  /** Every character of `s` before `p` or from `q` on is whitespace. */
  ghost predicate Outside(s: string, p: nat, q: nat) {
    && (forall i :: 0 <= i < p && i < |s| ==> IsSpace(s[i]))
    && (forall i :: q <= i < |s| ==> IsSpace(s[i]))
  }

  /** `str.strip()`: the middle of the string with only whitespace dropped, and no
      whitespace left at either end. */
  function Strip(s: string): (r: string)
    ensures Trimmed(r)
    ensures StrippedFrom(s, r)
  {
    var p := SkipSpaces(s, 0);
    var q := SkipSpacesBack(s, p, |s|);
    assert p < q ==> s[p..q][0] == s[p] && s[p..q][q - p - 1] == s[q - 1];
    assert Outside(s, p, q);
    s[p..q]
  }

  /** Stripping is the only way to cut a string down to a trimmed middle with only
      whitespace around it. */
  lemma StripUnique(s: string, r: string)
    requires Trimmed(r) && StrippedFrom(s, r)
    ensures r == Strip(s)
  {
    var st := Strip(s);
    assert Trimmed(st) && StrippedFrom(s, st);
    var p1, q1 :| 0 <= p1 <= q1 <= |s| && r == s[p1..q1] && Outside(s, p1, q1);
    var p2, q2 :| 0 <= p2 <= q2 <= |s| && st == s[p2..q2] && Outside(s, p2, q2);
    SameTrimmedSlice(s, p1, q1, p2, q2);
  }

  /** Two trimmed slices with only whitespace around them are the same slice. */
  lemma SameTrimmedSlice(s: string, p1: nat, q1: nat, p2: nat, q2: nat)
    requires p1 <= q1 <= |s| && p2 <= q2 <= |s|
    requires Trimmed(s[p1..q1]) && Outside(s, p1, q1)
    requires Trimmed(s[p2..q2]) && Outside(s, p2, q2)
    ensures s[p1..q1] == s[p2..q2]
  {
    if p1 < q1 {
      assert s[p1..q1][0] == s[p1] && s[p1..q1][q1 - p1 - 1] == s[q1 - 1];
    }
    if p2 < q2 {
      assert s[p2..q2][0] == s[p2] && s[p2..q2][q2 - p2 - 1] == s[q2 - 1];
    }
    if p1 < q1 && p2 < q2 {
      assert p1 == p2 && q1 == q2;
    }
  }

  /** A string with no whitespace at either end is its own strip. */
  lemma StripTrimmed(s: string)
    requires Trimmed(s)
    ensures Strip(s) == s
  {
    assert SkipSpaces(s, 0) == 0;
    assert SkipSpacesBack(s, 0, |s|) == |s|;
    assert s[0..|s|] == s;
  }

  lemma StripIdempotent(s: string)
    ensures Strip(Strip(s)) == Strip(s)
  {
    StripTrimmed(Strip(s));
  }

  const ShenzhenPrefixes: set<string> := {"000", "001", "002", "003", "300"}
  const ShanghaiPrefixes: set<string> := {"600", "601", "603", "605", "688"}
  const BeijingPrefixes: set<string> := {"bj8", "bj9"}

  /** `s.startswith(prefixes)` for a tuple of prefixes, every one of which has three
      characters. */
  predicate StartsWithAny(s: string, prefixes: set<string>) {
    |s| >= 3 && s[..3] in prefixes
  }

  /** The three exchange tags. */
  const Tags: set<string> := {"sz.", "sh.", "bj."}

  /** The tag `convert_code_to_baostock` puts in front of a stripped code: the
      Shenzhen, Shanghai and Beijing prefixes are tested in that order; a code that
      matches none of them and already has a dot gets no tag; anything else is taken
      for Shanghai. */
  function ExchangeTag(c: string): (t: Option<string>)
    ensures t.Some? ==> t.value in Tags
    ensures t.None? ==> '.' in c
  {
    if StartsWithAny(c, ShenzhenPrefixes) then Some("sz.")
    else if StartsWithAny(c, ShanghaiPrefixes) then Some("sh.")
    else if StartsWithAny(c, BeijingPrefixes) then Some("bj.")
    else if '.' in c then None
    else Some("sh.")
  }

  /** `convert_code_to_baostock` on a string: the stripped code behind its exchange
      tag, if it gets one. Every result has a dot. */
  function ToBaostock(code: string): (r: string)
    ensures '.' in r
  {
    var c := Strip(code);
    match ExchangeTag(c)
    case Some(t) =>
      TagDotted(t, c);
      t + c
    case None => c
  }

  /** Every tag ends in a dot, so a tagged code contains one. */
  lemma TagDotted(t: string, c: string)
    requires t in Tags
    ensures |t| == 3 && t[2] == '.' && '.' in t + c
  {
    assert t == "sz." || t == "sh." || t == "bj.";
    assert (t + c)[2] == t[2];
  }

  /** Which tag a code gets, as an if-and-only-if per tag: Shenzhen exactly for the
      Shenzhen prefixes; Beijing (keeping the `bj` of the code) exactly for `bj8`/`bj9`
      codes; none exactly for a dotted code that matches no prefix; Shanghai for the
      Shanghai prefixes and for undotted codes matching nothing. The prefixes are
      tested before the dot, so "600000.SH" becomes "sh.600000.SH". */
  lemma ConvertCases(c: string)
    ensures ExchangeTag(c) == Some("sz.") <==> StartsWithAny(c, ShenzhenPrefixes)
    ensures ExchangeTag(c) == Some("bj.") <==>
      !StartsWithAny(c, ShenzhenPrefixes) && !StartsWithAny(c, ShanghaiPrefixes) && StartsWithAny(c, BeijingPrefixes)
    ensures ExchangeTag(c).None? <==>
      !StartsWithAny(c, ShenzhenPrefixes) && !StartsWithAny(c, ShanghaiPrefixes) && !StartsWithAny(c, BeijingPrefixes)
      && '.' in c
    ensures ExchangeTag(c) == Some("sh.") <==>
      !StartsWithAny(c, ShenzhenPrefixes) && !StartsWithAny(c, BeijingPrefixes)
      && (StartsWithAny(c, ShanghaiPrefixes) || '.' !in c)
  {
    assert StartsWithAny(c, ShanghaiPrefixes) ==> !StartsWithAny(c, BeijingPrefixes) by {
      if StartsWithAny(c, ShanghaiPrefixes) {
        assert c[..3][0] == '6';
      }
    }
  }

  /** A tag in front of a stripped code gives a stripped code that starts with the
      tag and contains a dot. */
  lemma TaggedShape(tag: string, c: string)
    requires tag in Tags && Trimmed(c)
    ensures |tag + c| >= 3 && (tag + c)[..3] == tag && '.' in tag + c
    ensures Trimmed(tag + c)
  {
    var r := tag + c;
    assert r[0] == tag[0] && r[2] == '.';
    assert |c| > 0 ==> r[|r| - 1] == c[|c| - 1];
  }

  /** A converted code is the exchange tag of the stripped code followed by that
      stripped code, with no whitespace at either end; or, when the stripped code gets
      no tag, it is the stripped code itself, which already had a dot. */
  lemma ConvertShape(code: string)
    ensures var c := Strip(code); var r := ToBaostock(code);
      || (ExchangeTag(c).Some? && |r| >= 3 && r[..3] == ExchangeTag(c).value
          && r == ExchangeTag(c).value + c && Trimmed(r))
      || (ExchangeTag(c).None? && r == c && '.' in r)
  {
    var c := Strip(code);
    match ExchangeTag(c)
    case Some(t) => TaggedShape(t, c);
    case None =>
  }

  /** The conversion per exchange, in terms of the stripped code's prefix: a Shenzhen
      prefix gives "sz." before the code; a Shanghai prefix, or no known prefix and no
      dot, gives "sh."; a Beijing prefix gives "bj."; a dotted code with no known
      prefix comes back stripped and untagged. */
  lemma ConvertByPrefix(code: string)
    ensures var c := Strip(code);
      StartsWithAny(c, ShenzhenPrefixes) ==> ToBaostock(code) == "sz." + c
    ensures var c := Strip(code);
      (!StartsWithAny(c, ShenzhenPrefixes) && StartsWithAny(c, ShanghaiPrefixes))
      ==> ToBaostock(code) == "sh." + c
    ensures var c := Strip(code);
      (!StartsWithAny(c, ShenzhenPrefixes) && !StartsWithAny(c, ShanghaiPrefixes)
       && StartsWithAny(c, BeijingPrefixes))
      ==> ToBaostock(code) == "bj." + c
    ensures var c := Strip(code);
      (!StartsWithAny(c, ShenzhenPrefixes) && !StartsWithAny(c, ShanghaiPrefixes)
       && !StartsWithAny(c, BeijingPrefixes) && '.' !in c)
      ==> ToBaostock(code) == "sh." + c
    ensures var c := Strip(code);
      (!StartsWithAny(c, ShenzhenPrefixes) && !StartsWithAny(c, ShanghaiPrefixes)
       && !StartsWithAny(c, BeijingPrefixes) && '.' in c)
      ==> ToBaostock(code) == c
  {
    ConvertCases(Strip(code));
    ConvertShape(code);
  }

  /** "000001" is a Shenzhen code, so it gets "sz.". */
  lemma ConvertShenzhenExample()
    ensures ToBaostock("000001") == "sz.000001"
  {
    var c := "000001";
    StripTrimmed(c);
    assert c[..3] == "000";
    assert StartsWithAny(c, ShenzhenPrefixes);
  }

  /** A code already in BaoStock's form comes back as it is. */
  lemma ConvertDottedExample()
    ensures ToBaostock("sh.600000") == "sh.600000"
  {
    var c := "sh.600000";
    StripTrimmed(c);
    assert c[..3] == "sh." && c[2] == '.';
    assert ExchangeTag(c).None?;
  }

  /** A tagged code matches no prefix and has a dot, so it gets no further tag. */
  lemma TaggedUnchanged(tag: string, c: string)
    requires tag in Tags && Trimmed(c)
    ensures ToBaostock(tag + c) == tag + c
  {
    TaggedShape(tag, c);
    StripTrimmed(tag + c);
    assert ExchangeTag(tag + c).None?;
  }

  /** Conversion is idempotent on string codes. */
  lemma ConvertIdempotent(code: string)
    ensures ToBaostock(ToBaostock(code)) == ToBaostock(code)
  {
    var c := Strip(code);
    match ExchangeTag(c)
    case Some(t) => TaggedUnchanged(t, c);
    case None => StripIdempotent(code);
  }

  /** A code passed to the converter: a string, or any other value. */
  datatype CodeValue = Text(s: string) | Other

  /** `convert_code_to_baostock`: a non-string is returned as it is. */
  function ConvertCode(v: CodeValue): (r: CodeValue)
    ensures v.Other? <==> r.Other?
    ensures r.Text? ==> '.' in r.s
  {
    match v
    case Text(s) => Text(ToBaostock(s))
    case Other => Other
  }

  /** The `adjustflag` of the kline request: "2" for back-adjusted ("hfq"), "1" for
      unadjusted (""), and "3" for everything else, "qfq" included. */
  function AdjustFlag(adjust: string): (r: string)
    ensures r in {"1", "2", "3"}
    ensures r == "2" <==> adjust == "hfq"
    ensures r == "1" <==> adjust == ""
  {
    if adjust == "hfq" then "2"
    else if adjust == "" then "1"
    else "3"
  }

  /** Python's `<` on strings: lexicographic by code point, a proper prefix first. */
  predicate StrLess(a: string, b: string) {
    if |a| == 0 then |b| > 0
    else if |b| == 0 then false
    else if a[0] != b[0] then a[0] < b[0]
    else StrLess(a[1..], b[1..])
  }

  lemma {:induction false} StrLessIrreflexive(a: string)
    ensures !StrLess(a, a)
  {
    if |a| > 0 {
      StrLessIrreflexive(a[1..]);
    }
  }

  lemma {:induction false} StrLessTransitive(a: string, b: string, c: string)
    requires StrLess(a, b) && StrLess(b, c)
    ensures StrLess(a, c)
  {
    if |a| > 0 && a[0] == b[0] && b[0] == c[0] {
      StrLessTransitive(a[1..], b[1..], c[1..]);
    }
  }

  /** Two different strings compare one way or the other. */
  lemma {:induction false} StrLessTotal(a: string, b: string)
    requires a != b
    ensures StrLess(a, b) || StrLess(b, a)
  {
    if |a| > 0 && |b| > 0 && a[0] == b[0] {
      assert a == [a[0]] + a[1..] && b == [b[0]] + b[1..];
      StrLessTotal(a[1..], b[1..]);
    }
  }

  lemma StrLessAsymmetric(a: string, b: string)
    requires StrLess(a, b)
    ensures !StrLess(b, a)
  {
    if StrLess(b, a) {
      StrLessTransitive(a, b, a);
      StrLessIrreflexive(a);
    }
  }

  /** One stored kline row; a row with no date is stored with the empty date. */
  datatype Bar = Bar(date: string, open: real, high: real, low: real, close: real, volume: int)

  /** In merge mode a fetched row is appended when the stored list is empty or its
      date is later than the last stored date (of the list as it was read, not as it
      grows); outside merge mode every row is. */
  predicate Accepted(existing: seq<Bar>, merge: bool, b: Bar) {
    !merge || |existing| == 0 || StrLess(existing[|existing| - 1].date, b.date)
  }

  /** The fetched rows appended, in order; `None` is a row whose conversion raised and
      was skipped. */
  function Appended(existing: seq<Bar>, rows: seq<Option<Bar>>, merge: bool): (r: seq<Bar>)
    ensures |r| <= |rows|
    decreases |rows|
  {
    if |rows| == 0 then []
    else
      var prev := Appended(existing, rows[..|rows| - 1], merge);
      var last := rows[|rows| - 1];
      if last.Some? && Accepted(existing, merge, last.value) then prev + [last.value] else prev
  }

  /** Exactly the converted rows that are accepted get appended; nothing is appended
      exactly when no converted row is accepted. */
  lemma {:induction false} AppendedMembers(existing: seq<Bar>, rows: seq<Option<Bar>>, merge: bool)
    ensures var r := Appended(existing, rows, merge);
      && (forall b :: b in r <==> Some(b) in rows && Accepted(existing, merge, b))
      && (r == [] <==> forall b :: Some(b) in rows ==> !Accepted(existing, merge, b))
    decreases |rows|
  {
    if |rows| > 0 {
      var front := rows[..|rows| - 1];
      assert rows == front + [rows[|rows| - 1]];
      AppendedMembers(existing, front, merge);
    }
  }

  /** `ps` lists, in increasing order and each once, exactly the positions of the
      fetched rows that converted and are accepted. */
  ghost predicate AcceptedPositions(existing: seq<Bar>, rows: seq<Option<Bar>>, merge: bool, ps: seq<nat>) {
    PositionsAccepted(existing, rows, merge, ps) && Increasing(ps) && PositionsCover(existing, rows, merge, ps)
  }

  /** Every listed position holds a converted, accepted row. */
  ghost predicate PositionsAccepted(existing: seq<Bar>, rows: seq<Option<Bar>>, merge: bool, ps: seq<nat>) {
    forall j :: 0 <= j < |ps| ==> ps[j] < |rows| && rows[ps[j]].Some? && Accepted(existing, merge, rows[ps[j]].value)
  }

  ghost predicate Increasing(ps: seq<nat>) {
    forall j, k :: 0 <= j < k < |ps| ==> ps[j] < ps[k]
  }

  /** Every converted, accepted row's position is listed. */
  ghost predicate PositionsCover(existing: seq<Bar>, rows: seq<Option<Bar>>, merge: bool, ps: seq<nat>) {
    forall i :: 0 <= i < |rows| && rows[i].Some? && Accepted(existing, merge, rows[i].value) ==> i in ps
  }

  /** The positions of the accepted rows, in order. */
  ghost function AcceptedIndices(existing: seq<Bar>, rows: seq<Option<Bar>>, merge: bool): seq<nat>
    decreases |rows|
  {
    if |rows| == 0 then []
    else
      var prev := AcceptedIndices(existing, rows[..|rows| - 1], merge);
      var last := rows[|rows| - 1];
      if last.Some? && Accepted(existing, merge, last.value) then prev + [|rows| - 1] else prev
  }

  /** The appended bars are the accepted rows in fetch order, each as often as it was
      fetched: the `j`-th appended bar is the row at the `j`-th accepted position. */
  lemma AppendedFilter(existing: seq<Bar>, rows: seq<Option<Bar>>, merge: bool)
    ensures var ps := AcceptedIndices(existing, rows, merge);
      var r := Appended(existing, rows, merge);
      && AcceptedPositions(existing, rows, merge, ps)
      && |r| == |ps|
      && forall j :: 0 <= j < |ps| ==> r[j] == rows[ps[j]].value
  {
    IndicesArePositions(existing, rows, merge);
    AppendedAtIndices(existing, rows, merge);
  }

  lemma {:induction false} IndicesArePositions(existing: seq<Bar>, rows: seq<Option<Bar>>, merge: bool)
    ensures AcceptedPositions(existing, rows, merge, AcceptedIndices(existing, rows, merge))
    decreases |rows|
  {
    if |rows| > 0 {
      var front := rows[..|rows| - 1];
      IndicesArePositions(existing, front, merge);
      PositionsExtend(existing, rows, merge, AcceptedIndices(existing, front, merge));
    }
  }

  /** The `j`-th appended bar is the row at the `j`-th accepted position. */
  lemma {:induction false} AppendedAtIndices(existing: seq<Bar>, rows: seq<Option<Bar>>, merge: bool)
    ensures var ps := AcceptedIndices(existing, rows, merge);
      var r := Appended(existing, rows, merge);
      && |r| == |ps|
      && (forall j :: 0 <= j < |ps| ==> ps[j] < |rows| && rows[ps[j]].Some?)
      && forall j :: 0 <= j < |ps| ==> r[j] == rows[ps[j]].value
    decreases |rows|
  {
    if |rows| > 0 {
      var n := |rows| - 1;
      var front := rows[..n];
      AppendedAtIndices(existing, front, merge);
      var prev := AcceptedIndices(existing, front, merge);
      var ps := AcceptedIndices(existing, rows, merge);
      var r := Appended(existing, rows, merge);
      forall j | 0 <= j < |prev| ensures ps[j] == prev[j] && r[j] == rows[ps[j]].value {
        assert front[prev[j]] == rows[prev[j]];
      }
    }
  }

  /** Accepted positions of all rows but the last, extended by the last position when
      that row is accepted, are the accepted positions of all rows. */
  lemma PositionsExtend(existing: seq<Bar>, rows: seq<Option<Bar>>, merge: bool, prev: seq<nat>)
    requires |rows| > 0 && AcceptedPositions(existing, rows[..|rows| - 1], merge, prev)
    ensures var n := |rows| - 1;
      var x := rows[n];
      AcceptedPositions(existing, rows, merge,
        if x.Some? && Accepted(existing, merge, x.value) then prev + [n] else prev)
  {
    var n := |rows| - 1;
    var x := rows[n];
    var ps := if x.Some? && Accepted(existing, merge, x.value) then prev + [n] else prev;
    ExtendAccepted(existing, rows, merge, prev);
    ExtendIncreasing(prev, n, ps);
    ExtendCover(existing, rows, merge, prev);
  }

  lemma ExtendAccepted(existing: seq<Bar>, rows: seq<Option<Bar>>, merge: bool, prev: seq<nat>)
    requires |rows| > 0 && PositionsAccepted(existing, rows[..|rows| - 1], merge, prev)
    ensures var n := |rows| - 1;
      var x := rows[n];
      PositionsAccepted(existing, rows, merge,
        if x.Some? && Accepted(existing, merge, x.value) then prev + [n] else prev)
  {
    var n := |rows| - 1;
    var front := rows[..n];
    var x := rows[n];
    var ps := if x.Some? && Accepted(existing, merge, x.value) then prev + [n] else prev;
    forall j | 0 <= j < |ps|
      ensures ps[j] < |rows| && rows[ps[j]].Some? && Accepted(existing, merge, rows[ps[j]].value)
    {
      if j < |prev| {
        assert ps[j] == prev[j] && front[prev[j]] == rows[prev[j]];
      }
    }
  }

  lemma ExtendIncreasing(prev: seq<nat>, n: nat, ps: seq<nat>)
    requires Increasing(prev) && forall j :: 0 <= j < |prev| ==> prev[j] < n
    requires ps == prev + [n] || ps == prev
    ensures Increasing(ps)
  {
    forall j, k | 0 <= j < k < |ps| ensures ps[j] < ps[k] {
      if k < |prev| {
        assert ps[j] == prev[j] && ps[k] == prev[k];
      } else {
        assert ps[j] == prev[j] < n;
      }
    }
  }

  lemma ExtendCover(existing: seq<Bar>, rows: seq<Option<Bar>>, merge: bool, prev: seq<nat>)
    requires |rows| > 0 && PositionsCover(existing, rows[..|rows| - 1], merge, prev)
    ensures var n := |rows| - 1;
      var x := rows[n];
      PositionsCover(existing, rows, merge,
        if x.Some? && Accepted(existing, merge, x.value) then prev + [n] else prev)
  {
    var n := |rows| - 1;
    var front := rows[..n];
    var x := rows[n];
    var ps := if x.Some? && Accepted(existing, merge, x.value) then prev + [n] else prev;
    forall i | 0 <= i < |rows| && rows[i].Some? && Accepted(existing, merge, rows[i].value)
      ensures i in ps
    {
      if i < n {
        assert front[i] == rows[i];
        assert i in prev;
      }
    }
  }

  /** The kline list `save_stock_data_to_file` writes: in merge mode the stored rows
      stay as a prefix; after them (or alone, outside merge mode) come the fetched rows
      that converted and are accepted, in fetch order and each once per fetch. In
      merge mode a row is accepted when it is later than the last stored date;
      otherwise every converted row is. */
  function MergedKline(existing: seq<Bar>, rows: seq<Option<Bar>>, merge: bool): (r: seq<Bar>)
    ensures merge ==> |r| >= |existing| && r[..|existing|] == existing
    ensures !merge ==> forall b :: b in r <==> Some(b) in rows
    ensures merge ==> forall b :: b in r[|existing|..] <==>
      Some(b) in rows && (|existing| == 0 || StrLess(existing[|existing| - 1].date, b.date))
    ensures var base := if merge then |existing| else 0;
      exists ps :: && AcceptedPositions(existing, rows, merge, ps)
                   && |r| == base + |ps|
                   && forall j :: 0 <= j < |ps| ==> r[base + j] == rows[ps[j]].value
  {
    AppendedMembers(existing, rows, merge);
    var app := Appended(existing, rows, merge);
    var r := (if merge then existing else []) + app;
    assert merge ==> r[|existing|..] == app;
    AfterPrefix(existing, rows, merge, if merge then existing else []);
    r
  }

  /** The appended bars behind any prefix still sit at the accepted positions. */
  lemma AfterPrefix(existing: seq<Bar>, rows: seq<Option<Bar>>, merge: bool, prefix: seq<Bar>)
    ensures var r := prefix + Appended(existing, rows, merge);
      exists ps :: && AcceptedPositions(existing, rows, merge, ps)
                   && |r| == |prefix| + |ps|
                   && forall j :: 0 <= j < |ps| ==> r[|prefix| + j] == rows[ps[j]].value
  {
    AppendedFilter(existing, rows, merge);
    var app := Appended(existing, rows, merge);
    var r := prefix + app;
    var ps := AcceptedIndices(existing, rows, merge);
    assert forall j :: 0 <= j < |ps| ==> r[|prefix| + j] == app[j];
  }

  /** One more fetched row appends it exactly when it converted and is accepted. */
  lemma AppendedStep(existing: seq<Bar>, rows: seq<Option<Bar>>, i: nat, merge: bool)
    requires i < |rows|
    ensures Appended(existing, rows[..i + 1], merge)
      == Appended(existing, rows[..i], merge)
         + (if rows[i].Some? && Accepted(existing, merge, rows[i].value) then [rows[i].value] else [])
  {
    assert rows[..i + 1][..i] == rows[..i];
    assert rows[..i + 1][i] == rows[i];
  }

  /** The row loop of `save_stock_data_to_file`. */
  method SaveKline(existing: seq<Bar>, rows: seq<Option<Bar>>, merge: bool) returns (kline: seq<Bar>)
    ensures kline == MergedKline(existing, rows, merge)
  {
    kline := if merge then existing else [];
    var i := 0;
    while i < |rows|
      invariant 0 <= i <= |rows|
      invariant kline == (if merge then existing else []) + Appended(existing, rows[..i], merge)
    {
      AppendedStep(existing, rows, i, merge);
      match rows[i] {
        case None =>
        case Some(item) =>
          if Accepted(existing, merge, item) {
            kline := kline + [item];
          }
      }
      i := i + 1;
    }
    assert rows[..|rows|] == rows;
    assert kline == (if merge then existing else []) + Appended(existing, rows, merge);
  }

  ghost predicate DatesAscending(bars: seq<Bar>) {
    forall i, j :: 0 <= i < j < |bars| ==> StrLess(bars[i].date, bars[j].date)
  }

  /** The successfully converted fetched rows have strictly increasing dates. */
  ghost predicate RowDatesAscending(rows: seq<Option<Bar>>) {
    forall i, j :: 0 <= i < j < |rows| && rows[i].Some? && rows[j].Some? ==>
      StrLess(rows[i].value.date, rows[j].value.date)
  }

  /** Appending only later-dated rows keeps the stored list in strictly increasing
      date order. */
  lemma {:induction false} AppendedAscending(existing: seq<Bar>, rows: seq<Option<Bar>>, merge: bool)
    requires RowDatesAscending(rows)
    ensures DatesAscending(Appended(existing, rows, merge))
    decreases |rows|
  {
    if |rows| > 0 {
      var front := rows[..|rows| - 1];
      var last := rows[|rows| - 1];
      var prev := Appended(existing, front, merge);
      assert RowDatesAscending(front);
      AppendedAscending(existing, front, merge);
      AppendedMembers(existing, front, merge);
      if last.Some? && Accepted(existing, merge, last.value) {
        var r := prev + [last.value];
        forall i, j | 0 <= i < j < |r| ensures StrLess(r[i].date, r[j].date) {
          if j == |prev| {
            assert r[i] in prev;
            var p :| 0 <= p < |front| && front[p] == Some(r[i]);
            assert rows[p] == Some(r[i]);
          } else {
            assert r[i] == prev[i] && r[j] == prev[j];
          }
        }
      }
    }
  }

  lemma MergeKeepsDatesAscending(existing: seq<Bar>, rows: seq<Option<Bar>>)
    requires DatesAscending(existing) && RowDatesAscending(rows)
    ensures DatesAscending(MergedKline(existing, rows, true))
  {
    AppendedAscending(existing, rows, true);
    AppendedMembers(existing, rows, true);
    assert MergedKline(existing, rows, true) == existing + Appended(existing, rows, true);
    AscendingJoin(existing, Appended(existing, rows, true));
  }

  /** Strictly ascending stored dates followed by strictly ascending bars that are all
      later than the last stored date stay strictly ascending. */
  lemma AscendingJoin(existing: seq<Bar>, app: seq<Bar>)
    requires DatesAscending(existing) && DatesAscending(app)
    requires forall b :: b in app ==> |existing| == 0 || StrLess(existing[|existing| - 1].date, b.date)
    ensures DatesAscending(existing + app)
  {
    var r := existing + app;
    forall i, j | 0 <= i < j < |r| ensures StrLess(r[i].date, r[j].date) {
      if i < |existing| && j >= |existing| {
        var last := existing[|existing| - 1].date;
        assert app[j - |existing|] in app;
        assert StrLess(last, r[j].date);
        if i < |existing| - 1 {
          StrLessTransitive(r[i].date, last, r[j].date);
        }
      } else if j < |existing| {
        assert r[i] == existing[i] && r[j] == existing[j];
      } else {
        assert r[i] == app[i - |existing|] && r[j] == app[j - |existing|];
      }
    }
  }

  /** Running the same incremental update twice stores nothing new the second time:
      the first run already took every row later than the stored data. */
  lemma {:induction false} RerunAppendsNothing(existing: seq<Bar>, rows: seq<Option<Bar>>)
    requires RowDatesAscending(rows)
    ensures MergedKline(MergedKline(existing, rows, true), rows, true) == MergedKline(existing, rows, true)
    decreases |rows|
  {
    if |rows| > 0 {
      var front := rows[..|rows| - 1];
      var x := rows[|rows| - 1];
      if x.None? {
        assert RowDatesAscending(front);
        RerunAppendsNothing(existing, front);
        RerunSkipsLast(existing, rows);
      } else if Accepted(existing, true, x.value) {
        RerunLastAccepted(existing, rows);
      } else {
        RerunLastRejected(existing, rows);
      }
    }
  }

  /** A last row that failed to convert changes neither run. */
  lemma RerunSkipsLast(existing: seq<Bar>, rows: seq<Option<Bar>>)
    requires |rows| > 0 && rows[|rows| - 1].None?
    ensures var front := rows[..|rows| - 1];
      && MergedKline(existing, rows, true) == MergedKline(existing, front, true)
      && MergedKline(MergedKline(existing, rows, true), rows, true)
         == MergedKline(MergedKline(existing, front, true), front, true)
  {
  }

  /** With ascending dates, every converted row before the last is earlier than it. */
  lemma LastRowLatest(rows: seq<Option<Bar>>)
    requires RowDatesAscending(rows) && |rows| > 0 && rows[|rows| - 1].Some?
    ensures forall b :: Some(b) in rows[..|rows| - 1] ==> StrLess(b.date, rows[|rows| - 1].value.date)
  {
    var front := rows[..|rows| - 1];
    forall b: Bar | Some(b) in front ensures StrLess(b.date, rows[|rows| - 1].value.date) {
      var p :| 0 <= p < |front| && front[p] == Some(b);
      assert rows[p] == Some(b);
    }
  }

  /** When the first run appends the last row, that row ends the stored list and no
      row is later than it. */
  lemma RerunLastAccepted(existing: seq<Bar>, rows: seq<Option<Bar>>)
    requires RowDatesAscending(rows) && |rows| > 0
    requires rows[|rows| - 1].Some? && Accepted(existing, true, rows[|rows| - 1].value)
    ensures MergedKline(MergedKline(existing, rows, true), rows, true) == MergedKline(existing, rows, true)
  {
    var m := MergedKline(existing, rows, true);
    LastAppended(existing, rows);
    NothingLater(m, rows);
    assert MergedKline(m, rows, true) == m + [];
  }

  /** An accepted last row ends the merged list. */
  lemma LastAppended(existing: seq<Bar>, rows: seq<Option<Bar>>)
    requires |rows| > 0 && rows[|rows| - 1].Some? && Accepted(existing, true, rows[|rows| - 1].value)
    ensures var m := MergedKline(existing, rows, true);
      |m| > 0 && m[|m| - 1] == rows[|rows| - 1].value
  {
    assert MergedKline(existing, rows, true) == existing + Appended(existing, rows, true);
  }

  /** A stored list ending in the latest fetched row accepts none of the rows. */
  lemma NothingLater(m: seq<Bar>, rows: seq<Option<Bar>>)
    requires RowDatesAscending(rows) && |rows| > 0 && rows[|rows| - 1].Some?
    requires |m| > 0 && m[|m| - 1] == rows[|rows| - 1].value
    ensures Appended(m, rows, true) == []
  {
    var x := rows[|rows| - 1].value;
    LastRowLatest(rows);
    assert rows == rows[..|rows| - 1] + [Some(x)];
    forall b | Some(b) in rows ensures !Accepted(m, true, b) {
      if b != x {
        assert Some(b) in rows[..|rows| - 1];
        StrLessAsymmetric(b.date, x.date);
      } else {
        StrLessIrreflexive(b.date);
      }
    }
    AppendedMembers(m, rows, true);
  }

  /** When the first run does not append the last row, it is no later than the stored
      data, so no row is and neither run appends anything. */
  lemma RerunLastRejected(existing: seq<Bar>, rows: seq<Option<Bar>>)
    requires RowDatesAscending(rows) && |rows| > 0
    requires rows[|rows| - 1].Some? && !Accepted(existing, true, rows[|rows| - 1].value)
    ensures MergedKline(MergedKline(existing, rows, true), rows, true) == MergedKline(existing, rows, true)
  {
    var x := rows[|rows| - 1].value;
    var last := existing[|existing| - 1].date;
    assert x.date == last || StrLess(x.date, last) by {
      if x.date != last {
        StrLessTotal(x.date, last);
      }
    }
    LastRowLatest(rows);
    assert rows == rows[..|rows| - 1] + [Some(x)];
    forall b | Some(b) in rows ensures !Accepted(existing, true, b) {
      if b != x {
        assert Some(b) in rows[..|rows| - 1];
        if x.date != last {
          StrLessTransitive(b.date, x.date, last);
        }
        StrLessAsymmetric(b.date, last);
      }
    }
    AppendedMembers(existing, rows, true);
    assert MergedKline(existing, rows, true) == existing;
  }
}
