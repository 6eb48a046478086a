/** The schedule import command (classrooms/management/commands/load_schedule.py):
    free-form day, time and date parsing, and the row-by-row import into the
    normalized College, Building, Room and Schedule tables. */
module LoadSchedule {
  import opened Text
  import opened Models
  import opened Wrappers

  // ---------------------------------------------------------------- days

  /** A dictionary from day names to codes, grouped by code: each entry is a
      code with the keys that map to it. */
  type DayTable = seq<(string, seq<string>)>

  /** The `day_map` dictionary of `parse_days`. */
  const DayMap: DayTable := [
    ("Mo", ["Mo", "MO", "Mon", "Monday"]),
    ("Tu", ["Tu", "TU", "Tue", "Tues", "Tuesday"]),
    ("We", ["We", "WE", "Wed", "Wednesday"]),
    ("Th", ["Th", "TH", "Thu", "Thur", "Thursday"]),
    ("Fr", ["Fr", "FR", "Fri", "Friday"]),
    ("Sa", ["Sa", "SA", "Sat", "Saturday"]),
    ("Su", ["Su", "SU", "Sun", "Sunday"])
  ]

  /** Dictionary lookup (`table.get(w)`): keys are case-sensitive. */
  function Lookup(table: DayTable, w: string): Option<string>
  {
    if table == [] then None
    else if w in table[0].1 then Some(table[0].0)
    else Lookup(table[1..], w)
  }

  /** A key is found exactly when some group holds it. */
  lemma {:induction false} LookupFinds(table: DayTable, w: string)
    ensures Lookup(table, w).Some? <==> exists g :: 0 <= g < |table| && w in table[g].1
  {
    if table != [] {
      LookupFinds(table[1..], w);
      assert forall g :: 1 <= g < |table| ==> table[g] == table[1..][g - 1];
    }
  }

  /** Whether `s[i..i + len]` exists and is a key of `table`. */
  predicate KeyAt(table: DayTable, s: string, i: nat, len: nat) {
    i + len <= |s| && Lookup(table, s[i..i + len]).Some?
  }

  /** The first of the lengths `len`, `len + 1`, .., 8 that is a key at `i`, or 0. */
  function LongMatch(table: DayTable, s: string, i: nat, len: nat): (n: nat)
    requires 2 <= len <= 9
    ensures n == 0 || (len <= n <= 8 && KeyAt(table, s, i, n))
    decreases 9 - len
  {
    if len == 9 then 0
    else if KeyAt(table, s, i, len) then len
    else LongMatch(table, s, i, len + 1)
  }

  /** How many characters the scan of `parse_days` consumes at `i` as a day
      name: 2 characters are tried first, then 3, then 4 .. 8, and the first
      key found wins; 0 when nothing matches. */
  function MatchLength(table: DayTable, s: string, i: nat): (n: nat)
    ensures n == 0 || (2 <= n <= 8 && KeyAt(table, s, i, n))
  {
    LongMatch(table, s, i, 2)
  }

  /** The codes in `found` plus those the scan collects from position `i` on. */
  function ScanDays(table: DayTable, s: string, i: nat, found: set<string>): set<string>
    requires i <= |s|
    decreases |s| - i
  {
    if i == |s| then found
    else
      var n := MatchLength(table, s, i);
      if n == 0 then ScanDays(table, s, i + 1, found)
      else ScanDays(table, s, i + n, found + {Lookup(table, s[i..i + n]).value})
  }

  /** `sorted(found, key=order.index)` for a set of elements of `order`. */
  function SortedByIndex(order: seq<string>, found: set<string>): (days: seq<string>)
    requires NoDuplicates(order)
    ensures forall d :: d in days <==> d in found && d in order
    ensures forall i, j :: 0 <= i < j < |days| ==> IndexOf(order, days[i]) < IndexOf(order, days[j])
  {
    SelectMembers(order, found, 0);
    SelectIncreasing(order, found, 0);
    assert order[0..] == order;
    SelectFrom(order, found, 0)
  }

  /** `sorted(found, key=['Mo', 'Tu', 'We', 'Th', 'Fr', 'Sa', 'Su'].index)`. */
  function InCanonicalOrder(found: set<string>): (days: seq<string>)
    ensures forall d :: d in days <==> d in found && d in DayCodes
    ensures forall i, j :: 0 <= i < j < |days| ==> CodeIndex(days[i]) < CodeIndex(days[j])
  {
    DayCodesDistinct();
    SortedByIndex(DayCodes, found)
  }

  /** `order.index(d)`, or |order| when `d` is absent. */
  function IndexOf(order: seq<string>, d: string): (k: nat)
    ensures k <= |order| && (k < |order| <==> d in order) && (k < |order| ==> order[k] == d)
    ensures forall j :: 0 <= j < k ==> order[j] != d
  {
    if order == [] || order[0] == d then 0 else 1 + IndexOf(order[1..], d)
  }

  /** Position of a code in Mo < Tu < .. < Su (7 for anything else). */
  function CodeIndex(d: string): nat {
    IndexOf(DayCodes, d)
  }

  lemma DayCodesDistinct()
    ensures NoDuplicates(DayCodes)
  {
  }

  /** The elements `order[k..]` that are in `found`, in the order of `order`. */
  function SelectFrom(order: seq<string>, found: set<string>, k: nat): seq<string>
    requires k <= |order|
    decreases |order| - k
  {
    if k == |order| then []
    else if order[k] in found then [order[k]] + SelectFrom(order, found, k + 1)
    else SelectFrom(order, found, k + 1)
  }

  lemma IndexOfDistinct(order: seq<string>, k: nat)
    requires k < |order| && NoDuplicates(order)
    ensures IndexOf(order, order[k]) == k
  {
  }

  lemma {:induction false} SelectMembers(order: seq<string>, found: set<string>, k: nat)
    requires k <= |order|
    ensures forall d :: d in SelectFrom(order, found, k) <==> d in found && d in order[k..]
    decreases |order| - k
  {
    if k < |order| {
      SelectMembers(order, found, k + 1);
      assert order[k..] == [order[k]] + order[k + 1..];
    }
  }

  lemma {:induction false} SelectIncreasing(order: seq<string>, found: set<string>, k: nat)
    requires k <= |order| && NoDuplicates(order)
    ensures forall i :: 0 <= i < |SelectFrom(order, found, k)| ==>
      k <= IndexOf(order, SelectFrom(order, found, k)[i])
    ensures forall i, j :: 0 <= i < j < |SelectFrom(order, found, k)| ==>
      IndexOf(order, SelectFrom(order, found, k)[i]) < IndexOf(order, SelectFrom(order, found, k)[j])
    decreases |order| - k
  {
    if k < |order| {
      SelectIncreasing(order, found, k + 1);
      IndexOfDistinct(order, k);
      var rest := SelectFrom(order, found, k + 1);
      if order[k] in found {
        var days := [order[k]] + rest;
        assert SelectFrom(order, found, k) == days;
        assert forall i :: 1 <= i < |days| ==> days[i] == rest[i - 1];
        assert forall i :: 1 <= i < |days| ==> k < IndexOf(order, days[i]);
      }
    }
  }

  /** What `parse_days` returns for `daysStr`. */
  function DaysOf(daysStr: string): (days: seq<string>)
    ensures (forall k :: 0 <= k < |daysStr| ==> IsSpace(daysStr[k])) ==> days == []
    ensures forall d :: d in days ==> d in DayCodes
    ensures forall i, j :: 0 <= i < j < |days| ==> CodeIndex(days[i]) < CodeIndex(days[j])
  {
    var t := Strip(daysStr);
    if t == [] then [] else InCanonicalOrder(ScanDays(DayMap, t, 0, {}))
  }

  /** The `for length in [4, 5, 6, 7, 8]` search of `parse_days`: the first
      length that is a key at `i`, or 0 when none is. */
  method MatchLongName(table: DayTable, t: string, i: nat) returns (len: nat)
    ensures len == LongMatch(table, t, i, 4)
  {
    len := 4;
    while len <= 8
      invariant 4 <= len <= 9
      invariant LongMatch(table, t, i, len) == LongMatch(table, t, i, 4)
    {
      if i + len <= |t| && Lookup(table, t[i..i + len]).Some? {
        return;
      }
      len := len + 1;
    }
    len := 0;
  }

  /** The tests of one iteration of `parse_days`: a 2-character key at `i`,
      else a 3-character key, else the first of lengths 4 .. 8; 0 when none. */
  method KeyLengthAt(table: DayTable, t: string, i: nat) returns (len: nat)
    ensures len == MatchLength(table, t, i)
  {
    if i + 2 <= |t| && Lookup(table, t[i..i + 2]).Some? {
      len := 2;
    } else if i + 3 <= |t| && Lookup(table, t[i..i + 3]).Some? {
      len := 3;
    } else {
      len := MatchLongName(table, t, i);
    }
  }

  /** `parse_days`: strip, scan left to right collecting canonical codes (an
      unrecognised character is skipped), and order the codes Mo .. Su. */
  method ParseDays(daysStr: string) returns (days: seq<string>)
    ensures days == DaysOf(daysStr)
  {
    var t := Strip(daysStr);
    if t == [] {
      return [];
    }
    var found := CollectDays(DayMap, t);
    days := InCanonicalOrder(found);
  }

  /** The `while i < n` loop of `parse_days`. */
  method CollectDays(table: DayTable, t: string) returns (found: set<string>)
    ensures found == ScanDays(table, t, 0, {})
  {
    found := {};
    var i := 0;
    var n := |t|;
    ghost var all := ScanDays(table, t, 0, {});
    while i < n
      invariant 0 <= i <= n
      invariant ScanDays(table, t, i, found) == all
      decreases n - i
    {
      var len := KeyLengthAt(table, t, i);
      if len != 0 {
        found := found + {Lookup(table, t[i..i + len]).value};
        i := i + len;
      } else {
        i := i + 1;  // skip an unrecognised character
      }
    }
  }

  /** Every key longer than two characters starts with a two-character key
      of the same code. */
  ghost predicate PrefixClosed(table: DayTable) {
    forall g, w :: 0 <= g < |table| && w in table[g].1 && |w| >= 3 ==> w[..2] in table[g].1
  }

  lemma DayMapPrefixClosed()
    ensures PrefixClosed(DayMap)
  {
    forall g, w | 0 <= g < |DayMap| && w in DayMap[g].1 && |w| >= 3
      ensures w[..2] in DayMap[g].1
    {
      assert w[..2] == DayMap[g].1[0];
    }
  }

  /** As the two-character test comes first, the 3- to 8-character branches
      of `parse_days` never fire on a prefix-closed dictionary: a scan step
      consumes two characters or skips one. */
  lemma ShortKeysWin(table: DayTable, s: string, i: nat)
    requires PrefixClosed(table)
    ensures MatchLength(table, s, i) == 0 || MatchLength(table, s, i) == 2
  {
    var n := MatchLength(table, s, i);
    if n > 2 {
      assert !KeyAt(table, s, i, 2);
      var w := s[i..i + n];
      assert w[..2] == s[i..i + 2];
      LookupFinds(table, w);
      LookupFinds(table, w[..2]);
    }
  }

  /** The scan as it behaves on a prefix-closed dictionary: a two-character
      key is consumed, anything else skips one character. */
  function PairScan(table: DayTable, s: string, i: nat, found: set<string>): set<string>
    requires i <= |s|
    decreases |s| - i
  {
    if i == |s| then found
    else if KeyAt(table, s, i, 2) then
      PairScan(table, s, i + 2, found + {Lookup(table, s[i..i + 2]).value})
    else PairScan(table, s, i + 1, found)
  }

  lemma {:induction false} ScanIsPairScan(table: DayTable, s: string, i: nat, found: set<string>)
    requires PrefixClosed(table) && i <= |s|
    ensures ScanDays(table, s, i, found) == PairScan(table, s, i, found)
    decreases |s| - i
  {
    if i < |s| {
      ShortKeysWin(table, s, i);
      if KeyAt(table, s, i, 2) {
        ScanIsPairScan(table, s, i + 2, found + {Lookup(table, s[i..i + 2]).value});
      } else {
        ScanIsPairScan(table, s, i + 1, found);
      }
    }
  }

  lemma {:induction false} LookupAt(table: DayTable, g: nat, w: string)
    requires g < |table| && w in table[g].1
    requires forall h :: 0 <= h < g ==> w !in table[h].1
    ensures Lookup(table, w) == Some(table[g].0)
  {
    if g > 0 {
      LookupAt(table[1..], g - 1, w);
      assert forall h :: 0 <= h < g - 1 ==> table[1..][h] == table[h + 1];
    }
  }


  /** Every day-name key starts with M, T, W, F or S. */
  lemma DayMapInitials(w: string)
    requires Lookup(DayMap, w).Some?
    ensures w != [] && w[0] in "MTWFS"
  {
    LookupFinds(DayMap, w);
  }

  /** Upper-case "SATURDAY" reads as "SA" and then "TU": Tuesday and Saturday. */
  lemma SaturdayUpperCase()
    ensures DaysOf("SATURDAY") == ["Tu", "Sa"]
  {
    var s := "SATURDAY";
    assert Strip(s) == s by { StripUnchanged(s); }
    DayMapPrefixClosed();
    ScanIsPairScan(DayMap, s, 0, {});
    SaturdayPairs();
    CanonicalTuSa();
  }

  lemma CanonicalTuSa()
    ensures InCanonicalOrder({"Sa", "Tu"}) == ["Tu", "Sa"]
  {
    var f := {"Sa", "Tu"};
    assert SelectFrom(DayCodes, f, 5) == ["Sa"];
    assert SelectFrom(DayCodes, f, 2) == ["Sa"];
    assert SelectFrom(DayCodes, f, 0) == ["Tu", "Sa"];
  }

  lemma SaturdayPairs()
    ensures PairScan(DayMap, "SATURDAY", 0, {}) == {"Sa", "Tu"}
  {
    LookupUpperSa();
    LookupUpperTu();
    SaturdayTail();
    SaturdayPairsIn(DayMap);
  }

  lemma SaturdayPairsIn(table: DayTable)
    requires Lookup(table, "SA") == Some("Sa") && Lookup(table, "TU") == Some("Tu")
    requires PairScan(table, "SATURDAY", 4, {"Sa", "Tu"}) == {"Sa", "Tu"}
    ensures PairScan(table, "SATURDAY", 0, {}) == {"Sa", "Tu"}
  {
    var s := "SATURDAY";
    assert s[0..2] == "SA" && s[2..4] == "TU";
    PairScanTakes(table, s, 0, {}, "Sa");
    PairScanTakes(table, s, 2, {"Sa"}, "Tu");
  }

  lemma PairScanTakes(table: DayTable, s: string, i: nat, found: set<string>, d: string)
    requires i + 2 <= |s| && Lookup(table, s[i..i + 2]) == Some(d)
    ensures PairScan(table, s, i, found) == PairScan(table, s, i + 2, found + {d})
  {
  }

  lemma LookupUpperSa()
    ensures Lookup(DayMap, "SA") == Some("Sa")
  {
    LookupAt(DayMap, 5, "SA");
  }

  lemma LookupUpperTu()
    ensures Lookup(DayMap, "TU") == Some("Tu")
  {
    LookupAt(DayMap, 1, "TU");
  }

  lemma SaturdayTail()
    ensures PairScan(DayMap, "SATURDAY", 4, {"Sa", "Tu"}) == {"Sa", "Tu"}
  {
    var s := "SATURDAY";
    assert s[4..6] == "RD" && s[5..7] == "DA" && s[6..8] == "AY";
    if Lookup(DayMap, "RD").Some? { DayMapInitials("RD"); }
    if Lookup(DayMap, "DA").Some? { DayMapInitials("DA"); }
    if Lookup(DayMap, "AY").Some? { DayMapInitials("AY"); }
  }

  // ----------------------------------------------------------- examples

  /** Every key of `table` starts with M, T, W, F or S. */
  ghost predicate KeyInitials(table: DayTable) {
    forall w :: Lookup(table, w).Some? ==> w != [] && w[0] in "MTWFS"
  }

  lemma DayMapKeyInitials()
    ensures KeyInitials(DayMap)
  {
    forall w | Lookup(DayMap, w).Some? ensures w != [] && w[0] in "MTWFS" {
      DayMapInitials(w);
    }
  }

  /** A stretch of characters no key can start with is skipped one by one. */
  lemma {:induction false} PairScanSkipsRun(table: DayTable, s: string, i: nat, j: nat, found: set<string>)
    requires KeyInitials(table)
    requires i <= j <= |s| && forall k :: i <= k < j ==> s[k] !in "MTWFS"
    ensures PairScan(table, s, i, found) == PairScan(table, s, j, found)
    decreases j - i
  {
    if i < j {
      if i + 2 <= |s| {
        assert s[i..i + 2][0] == s[i];
      }
      PairScanSkipsRun(table, s, i + 1, j, found);
    }
  }

  lemma LookupMo()
    ensures Lookup(DayMap, "Mo") == Some("Mo")
  {
    LookupAt(DayMap, 0, "Mo");
  }

  lemma LookupWe()
    ensures Lookup(DayMap, "We") == Some("We")
  {
    LookupAt(DayMap, 2, "We");
  }

  lemma LookupFr()
    ensures Lookup(DayMap, "Fr") == Some("Fr")
  {
    LookupAt(DayMap, 4, "Fr");
  }

  lemma UnknownPairsIn(table: DayTable)
    requires KeyInitials(table) && Lookup(table, "Mo") == Some("Mo")
    ensures PairScan(table, "XxMoYy", 0, {}) == {"Mo"}
  {
    var s := "XxMoYy";
    assert s[2..4] == "Mo";
    PairScanSkipsRun(table, s, 0, 2, {});
    PairScanTakes(table, s, 2, {}, "Mo");
    PairScanSkipsRun(table, s, 4, 6, {"Mo"});
  }

  lemma CanonicalMo()
    ensures InCanonicalOrder({"Mo"}) == ["Mo"]
  {
    assert SelectFrom(DayCodes, {"Mo"}, 1) == [];
  }

  /** "XxMoYy": the unknown characters around "Mo" are skipped. */
  lemma UnknownCharactersSkipped()
    ensures DaysOf("XxMoYy") == ["Mo"]
  {
    var s := "XxMoYy";
    assert Strip(s) == s by { StripUnchanged(s); }
    DayMapPrefixClosed();
    ScanIsPairScan(DayMap, s, 0, {});
    DayMapKeyInitials();
    LookupMo();
    UnknownPairsIn(DayMap);
    CanonicalMo();
  }

  lemma GluedPairsIn(table: DayTable)
    requires Lookup(table, "Mo") == Some("Mo") && Lookup(table, "We") == Some("We")
    requires Lookup(table, "Fr") == Some("Fr")
    ensures PairScan(table, "MoWeFr", 0, {}) == {"Mo", "We", "Fr"}
  {
    var s := "MoWeFr";
    assert s[0..2] == "Mo" && s[2..4] == "We" && s[4..6] == "Fr";
    PairScanTakes(table, s, 0, {}, "Mo");
    PairScanTakes(table, s, 2, {"Mo"}, "We");
    PairScanTakes(table, s, 4, {"Mo", "We"}, "Fr");
  }

  lemma CanonicalMoWeFr()
    ensures InCanonicalOrder({"Mo", "We", "Fr"}) == ["Mo", "We", "Fr"]
  {
    var f := {"Mo", "We", "Fr"};
    assert SelectFrom(DayCodes, f, 7) == [];
    assert SelectFrom(DayCodes, f, 6) == [];
    assert SelectFrom(DayCodes, f, 5) == [];
    assert SelectFrom(DayCodes, f, 4) == ["Fr"];
    assert SelectFrom(DayCodes, f, 3) == ["Fr"];
    assert SelectFrom(DayCodes, f, 2) == ["We", "Fr"];
    assert SelectFrom(DayCodes, f, 1) == ["We", "Fr"];
  }

  /** "MoWeFr": three two-character keys in a row. */
  lemma GluedCodes()
    ensures DaysOf("MoWeFr") == ["Mo", "We", "Fr"]
  {
    var s := "MoWeFr";
    assert Strip(s) == s by { StripUnchanged(s); }
    DayMapPrefixClosed();
    ScanIsPairScan(DayMap, s, 0, {});
    LookupMo();
    LookupWe();
    LookupFr();
    GluedPairsIn(DayMap);
    CanonicalMoWeFr();
  }

  lemma LongNamePairsIn(table: DayTable)
    requires KeyInitials(table) && Lookup(table, "Mo") == Some("Mo") && Lookup(table, "We") == Some("We")
    ensures PairScan(table, "Monday/Wednesday", 0, {}) == {"Mo", "We"}
  {
    var s := "Monday/Wednesday";
    assert |s| == 16 && s[0..2] == "Mo" && s[7..9] == "We";
    PairScanTakes(table, s, 0, {}, "Mo");
    assert {} + {"Mo"} == {"Mo"};
    PairScanSkipsRun(table, s, 2, 7, {"Mo"});
    PairScanTakes(table, s, 7, {"Mo"}, "We");
    assert {"Mo"} + {"We"} == {"Mo", "We"};
    PairScanSkipsRun(table, s, 9, 16, {"Mo", "We"});
    assert PairScan(table, s, 16, {"Mo", "We"}) == {"Mo", "We"};
  }

  lemma CanonicalMoWe()
    ensures InCanonicalOrder({"Mo", "We"}) == ["Mo", "We"]
  {
    var f := {"Mo", "We"};
    assert SelectFrom(DayCodes, f, 3) == [];
    assert SelectFrom(DayCodes, f, 1) == ["We"];
  }

  /** "Monday/Wednesday": "Mo" and "We" are taken, the rest is skipped. */
  lemma LongNamesReadAsPairs()
    ensures DaysOf("Monday/Wednesday") == ["Mo", "We"]
  {
    var s := "Monday/Wednesday";
    assert Strip(s) == s by { StripUnchanged(s); }
    DayMapPrefixClosed();
    ScanIsPairScan(DayMap, s, 0, {});
    DayMapKeyInitials();
    LookupMo();
    LookupWe();
    LongNamePairsIn(DayMap);
    CanonicalMoWe();
  }

  lemma LowerPairsIn(table: DayTable)
    requires KeyInitials(table)
    ensures PairScan(table, "mo", 0, {}) == {}
  {
    PairScanSkipsRun(table, "mo", 0, 2, {});
  }

  /** Keys are case-sensitive: "mo" names no day. */
  lemma LowerCaseIgnored()
    ensures DaysOf("mo") == []
  {
    var s := "mo";
    assert Strip(s) == s by { StripUnchanged(s); }
    DayMapPrefixClosed();
    ScanIsPairScan(DayMap, s, 0, {});
    DayMapKeyInitials();
    LowerPairsIn(DayMap);
    CanonicalNone();
  }

  lemma {:induction false} SelectNone(order: seq<string>, k: nat)
    requires k <= |order|
    ensures SelectFrom(order, {}, k) == []
    decreases |order| - k
  {
    if k < |order| {
      SelectNone(order, k + 1);
    }
  }

  lemma CanonicalNone()
    ensures InCanonicalOrder({}) == []
  {
    SelectNone(DayCodes, 0);
  }
}
