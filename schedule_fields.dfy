/** The field parsers of the schedule import
    (classrooms/management/commands/load_schedule.py): `parse_time`, which
    separates a glued AM/PM and reads the result with the format
    '%I:%M %p', and `parse_date`, which reads the format '%m/%d/%Y'. The
    part of Python's `datetime.strptime` they depend on is written out: the
    field patterns it tries in order, the whitespace rule, the requirement
    that the whole string be consumed and the calendar check. */
module ScheduleFields {
  import opened Text
  import opened Models
  import opened Wrappers

  datatype Meridiem = AM | PM

  // ------------------------------------------------------------ AM/PM glue

  /** "AM" or "PM" in any letter case: the `(AM|PM)` group under IGNORECASE. */
  predicate IsMeridiem(w: string) {
    |w| == 2 && w[0] in "aApP" && w[1] in "mM"
  }

  /** `re.sub(r'(?<=\d)(AM|PM)', r' \1', s, flags=re.IGNORECASE)`: a space is
      put in front of every AM/PM that directly follows a digit. Matches are
      found left to right without overlapping; `afterDigit` says whether the
      character before `s` (in the original string) is a digit. */
  function SpaceMeridiem(s: string, afterDigit: bool): (r: string)
    ensures |s| <= |r|
    ensures s == [] <==> r == []
    decreases |s|
  {
    if s == [] then []
    else if afterDigit && |s| >= 2 && IsMeridiem(s[..2]) then
      [' ', s[0], s[1]] + SpaceMeridiem(s[2..], false)
    else [s[0]] + SpaceMeridiem(s[1..], IsDigit(s[0]))
  }

  /** Characters that can neither start an AM/PM nor be changed by `upper()`. */
  predicate Inert(x: string) {
    forall k :: 0 <= k < |x| ==> !('a' <= x[k] <= 'z') && x[k] !in "AP"
  }

  /** Text with no letter in it passes through the substitution unchanged. */
  lemma {:induction false} SpaceMeridiemInert(x: string, rest: string, afterDigit: bool)
    requires Inert(x)
    ensures SpaceMeridiem(x + rest, afterDigit) ==
      x + SpaceMeridiem(rest, if x == [] then afterDigit else IsDigit(x[|x| - 1]))
    decreases |x|
  {
    if x != [] {
      var s := x + rest;
      assert s[1..] == x[1..] + rest;
      assert x[0] !in "aApP" by {
        assert !('a' <= x[0] <= 'z') && x[0] !in "AP";
      }
      SpaceMeridiemInert(x[1..], rest, IsDigit(x[0]));
      var flag := if x == [] then afterDigit else IsDigit(x[|x| - 1]);
      if |x| > 1 {
        assert x[|x| - 1] == x[1..][|x[1..]| - 1];
      }
      calc {
        SpaceMeridiem(s, afterDigit);
        [x[0]] + SpaceMeridiem(x[1..] + rest, IsDigit(x[0]));
        [x[0]] + (x[1..] + SpaceMeridiem(rest, flag));
        { assert [x[0]] + x[1..] == x; }
        x + SpaceMeridiem(rest, flag);
      }
    } else {
      assert x + rest == rest;
    }
  }

  /** An AM/PM after a digit gets its space; after anything else it stays. */
  lemma MeridiemSpaced(w: string, afterDigit: bool)
    requires IsMeridiem(w)
    ensures SpaceMeridiem(w, afterDigit) == (if afterDigit then " " + w else w)
  {
    if afterDigit {
      assert w[..2] == w && w[2..] == [];
    } else {
      assert SpaceMeridiem(w[1..], IsDigit(w[0])) == w[1..] by {
        assert w[1..][1..] == [];
      }
    }
  }

  /** ASCII upper-casing leaves inert text alone. */
  lemma UpperInert(x: string)
    requires Inert(x)
    ensures Upper(x) == x
  {
  }

  lemma UpperAppend(a: string, b: string)
    ensures Upper(a + b) == Upper(a) + Upper(b)
  {
    assert forall k :: 0 <= k < |a + b| ==> Upper(a + b)[k] == (Upper(a) + Upper(b))[k];
  }

  // ------------------------------------------------------- strptime fields

  /** strptime's `%I` and `%m`: the alternatives `1[0-2]`, `0[1-9]`, `[1-9]`
      tried in that order, each followed by the literal `sep`. Gives the
      value and the position after `sep`. */
  function OneToTwelve(s: string, i: nat, sep: char): (r: Option<(nat, nat)>)
    ensures r.Some? ==> 1 <= r.value.0 <= 12 && i + 2 <= r.value.1 <= i + 3 && r.value.1 <= |s|
    ensures r.Some? ==> s[r.value.1 - 1] == sep
  {
    if i + 3 <= |s| && s[i + 2] == sep &&
       ((s[i] == '1' && '0' <= s[i + 1] <= '2') || (s[i] == '0' && '1' <= s[i + 1] <= '9'))
    then Some((DigitValue(s[i]) * 10 + DigitValue(s[i + 1]), i + 3))
    else if i + 2 <= |s| && s[i + 1] == sep && '1' <= s[i] <= '9'
    then Some((DigitValue(s[i]), i + 2))
    else None
  }

  /** strptime's `%M` followed by the `\s+` that the format's space becomes:
      `[0-5]\d` or else `\d`, then at least one whitespace character. Gives
      the minute and the position of the first whitespace character. */
  function MinuteThenSpace(s: string, i: nat): (r: Option<(nat, nat)>)
    ensures r.Some? ==> r.value.0 < 60 && i < r.value.1 <= i + 2 && r.value.1 < |s|
    ensures r.Some? ==> IsSpace(s[r.value.1])
  {
    if i + 3 <= |s| && '0' <= s[i] <= '5' && IsDigit(s[i + 1]) && IsSpace(s[i + 2])
    then Some((DigitValue(s[i]) * 10 + DigitValue(s[i + 1]), i + 2))
    else if i + 2 <= |s| && IsDigit(s[i]) && IsSpace(s[i + 1])
    then Some((DigitValue(s[i]), i + 1))
    else None
  }

  /** The rest of '%I:%M %p' from a whitespace character at `i`: the greedy
      `\s+`, then `%p` (`am|pm`, case-insensitive), then the end of the
      string, as strptime rejects unconverted data. */
  function MeridiemTail(s: string, i: nat): (r: Option<Meridiem>)
    requires i <= |s|
  {
    var j := i + LeadingSpaces(s[i..]);
    if j + 2 == |s| && IsMeridiem(s[j..]) then Some(if s[j] in "aA" then AM else PM)
    else None
  }

  /** strptime's `%p` conversion: 12 AM is hour 0, 12 PM is hour 12, other
      PM hours gain 12. */
  function To24(hour12: nat, m: Meridiem): (h: nat)
    requires 1 <= hour12 <= 12
    ensures h < 24
    ensures m == AM <==> h < 12
    ensures h % 12 == hour12 % 12
  {
    if m == AM then (if hour12 == 12 then 0 else hour12)
    else (if hour12 == 12 then 12 else hour12 + 12)
  }

  /** The 12-hour reading of a 24-hour clock hour: the inverse of To24. */
  function From24(h: nat): (r: (nat, Meridiem))
    requires h < 24
    ensures 1 <= r.0 <= 12
  {
    if h == 0 then (12, AM) else if h < 12 then (h, AM)
    else if h == 12 then (12, PM) else (h - 12, PM)
  }

  lemma To24Inverse(hour12: nat, m: Meridiem, h: nat)
    requires 1 <= hour12 <= 12 && h < 24
    ensures From24(To24(hour12, m)) == (hour12, m)
    ensures To24(From24(h).0, From24(h).1) == h
  {
  }

  /** `datetime.strptime(s, '%I:%M %p').time()`, None for a ValueError. */
  function Clock12(s: string): (r: Option<Time>)
    ensures r.Some? ==> exists h, mi, m :: 1 <= h <= 12 && mi < 60 && r.value == ClockTime(To24(h, m), mi)
  {
    match OneToTwelve(s, 0, ':')
    case None => None
    case Some((h, i)) =>
      match MinuteThenSpace(s, i)
      case None => None
      case Some((mi, j)) =>
        match MeridiemTail(s, j)
        case None => None
        case Some(m) => Some(ClockTime(To24(h, m), mi))
  }

  /** What '%I:%M %p' accepts is an hour 1 .. 12 and a minute 0 .. 59, each
      with one or two digits, a colon between them, whitespace, and AM/PM in
      any letter case, and nothing else; the time read is that hour and
      minute. */
  lemma Clock12Accepts(s: string)
    requires Clock12(s).Some?
    ensures exists hh, h, mm, mi, g, w, m ::
      ClockText(s, hh, h, mm, mi, g, w, m) && Clock12(s) == Some(ClockTime(To24(h, m), mi))
  {
    var (h, i) := OneToTwelve(s, 0, ':').value;
    var (mi, j) := MinuteThenSpace(s, i).value;
    var m := MeridiemTail(s, j).value;
    var hh, mm, g, w := Clock12Shape(s, h, i, mi, j, m);
    assert ClockText(s, hh, h, mm, mi, g, w, m);
  }

  /** `s` is the 12-hour time `h`:`mi` `m` as '%I:%M %p' reads it: the hour
      text `hh`, ':', the minute text `mm`, whitespace `g` and the AM/PM `w`. */
  predicate ClockText(s: string, hh: string, h: nat, mm: string, mi: nat, g: string, w: string, m: Meridiem) {
    NumberText(hh, h) && 1 <= h <= 12 && NumberText(mm, mi) && mi < 60 &&
    g != [] && (forall k :: 0 <= k < |g| ==> IsSpace(g[k])) &&
    IsMeridiem(w) && (w[0] in "aA" <==> m == AM) &&
    s == hh + ":" + mm + g + w
  }

  /** The pieces Clock12's three readers consume. */
  lemma Clock12Shape(s: string, h: nat, i: nat, mi: nat, j: nat, m: Meridiem)
    returns (hh: string, mm: string, g: string, w: string)
    requires OneToTwelve(s, 0, ':') == Some((h, i))
    requires MinuteThenSpace(s, i) == Some((mi, j))
    requires MeridiemTail(s, j) == Some(m)
    ensures NumberText(hh, h) && NumberText(mm, mi)
    ensures g != [] && forall k :: 0 <= k < |g| ==> IsSpace(g[k])
    ensures IsMeridiem(w) && (w[0] in "aA" <==> m == AM)
    ensures s == hh + ":" + mm + g + w
  {
    OneToTwelveText(s, ':');
    MinuteText(s, i);
    var e := MeridiemTailText(s, j);
    hh, mm, g, w := s[..i - 1], s[i..j], s[j..e], s[e..];
    assert s == s[..i - 1] + [s[i - 1]] + s[i..j] + s[j..e] + s[e..];
  }

  /** What the `%I` / `%m` pattern accepts is a rendered 1 .. 12, then `sep`. */
  lemma OneToTwelveText(s: string, sep: char)
    requires OneToTwelve(s, 0, sep).Some?
    ensures var r := OneToTwelve(s, 0, sep).value; NumberText(s[..r.1 - 1], r.0)
  {
    var r := OneToTwelve(s, 0, sep).value;
    if r.1 == 3 {
      DigitsText(s[0], s[1]);
      assert s[..2] == [s[0], s[1]];
    } else {
      DigitText(s[0]);
      assert s[..1] == [s[0]];
    }
  }

  /** What the `%M` pattern accepts is a rendered minute. */
  lemma MinuteText(s: string, i: nat)
    requires MinuteThenSpace(s, i).Some?
    ensures var r := MinuteThenSpace(s, i).value; NumberText(s[i..r.1], r.0)
  {
    var r := MinuteThenSpace(s, i).value;
    if r.1 == i + 2 {
      DigitsText(s[i], s[i + 1]);
      assert s[i..i + 2] == [s[i], s[i + 1]];
    } else {
      DigitText(s[i]);
      assert s[i..i + 1] == [s[i]];
    }
  }

  /** What the tail accepts from a whitespace character at `j`: whitespace
      up to `e`, then AM/PM, which is the whole rest. */
  lemma MeridiemTailText(s: string, j: nat) returns (e: nat)
    requires j < |s| && IsSpace(s[j]) && MeridiemTail(s, j).Some?
    ensures j < e && e + 2 == |s| && IsMeridiem(s[e..])
    ensures forall k :: 0 <= k < e - j ==> IsSpace(s[j..e][k])
    ensures s[e] in "aA" <==> MeridiemTail(s, j) == Some(AM)
  {
    var n := LeadingSpaces(s[j..]);
    assert s[j..][0] == s[j];
    e := j + n;
    forall k | 0 <= k < e - j ensures IsSpace(s[j..e][k]) {
      assert s[j..e][k] == s[j..][k];
    }
  }

  /** `parse_time`: strip, separate a glued AM/PM, upper-case, and read
      '%I:%M %p'. */
  function ParseTime(timeStr: string): (r: Result<Time>)
    ensures r.Ok? ==> exists h, mi, m :: 1 <= h <= 12 && mi < 60 && r.value == ClockTime(To24(h, m), mi)
  {
    var t := Strip(timeStr);
    match Clock12(Upper(SpaceMeridiem(t, false)))
    case Some(time) => Ok(time)
    case None => Err("Invalid time format: " + t + ". Expected HH:MM AM/PM")
  }

  /** `s` is the 12-hour time `h`:`mi` `m` written out, with whitespace
      `lead` before it and `trail` after it: the hour text `hh`, ':', the
      minute text `mm`, whitespace `gap` (possibly none) and the AM/PM `w`. */
  predicate TimeText(s: string, lead: string, hh: string, h: nat, mm: string, mi: nat,
                     gap: string, w: string, m: Meridiem, trail: string)
  {
    NumberText(hh, h) && 1 <= h <= 12 && NumberText(mm, mi) && mi < 60 &&
    IsMeridiem(w) && (w[0] in "aA" <==> m == AM) &&
    (forall k :: 0 <= k < |lead| ==> IsSpace(lead[k])) &&
    (forall k :: 0 <= k < |gap| ==> IsSpace(gap[k])) &&
    (forall k :: 0 <= k < |trail| ==> IsSpace(trail[k])) &&
    s == lead + (hh + ":" + mm + gap + w) + trail
  }

  /** What `parse_time` accepts is a 12-hour time, AM/PM in any letter case
      glued to the minutes or after whitespace, with whitespace around the
      whole, and nothing else; the time read is that hour and minute. */
  lemma ParseTimeAccepts(s: string)
    requires ParseTime(s).Ok?
    ensures exists lead, hh, h, mm, mi, gap, w, m, trail ::
      TimeText(s, lead, hh, h, mm, mi, gap, w, m, trail) && ParseTime(s) == Ok(ClockTime(To24(h, m), mi))
  {
    var t := Strip(s);
    var u := Upper(SpaceMeridiem(t, false));
    assert Clock12(u) == Some(ParseTime(s).value);
    ParseTimeShape(s, ParseTime(s).value);
  }

  /** The text `parse_time` accepted, before the substitution and
      `upper()`: the clock text Clock12 read, with the original letter case
      and the original (possibly empty) whitespace before AM/PM. */
  lemma ParseTimeShape(s: string, time: Time)
    requires Clock12(Upper(SpaceMeridiem(Strip(s), false))) == Some(time)
    ensures exists lead, hh, h, mm, mi, gap, w, m, trail ::
      TimeText(s, lead, hh, h, mm, mi, gap, w, m, trail) && time == ClockTime(To24(h, m), mi)
  {
    var t := Strip(s);
    var u := Upper(SpaceMeridiem(t, false));
    Clock12Accepts(u);
    var hh, h, mm, mi, g, v, m :| ClockText(u, hh, h, mm, mi, g, v, m) && Clock12(u) == Some(ClockTime(To24(h, m), mi));
    var gap, w := NormalizedBack(t, hh, h, mm, mi, g, v);
    var lead, trail := StripParts(s);
    TimeTextOf(s, lead, t, trail, hh, h, mm, mi, gap, w, m);
  }

  lemma TimeTextOf(s: string, lead: string, t: string, trail: string,
                   hh: string, h: nat, mm: string, mi: nat, gap: string, w: string, m: Meridiem)
    requires s == lead + t + trail && t == hh + ":" + mm + gap + w
    requires NumberText(hh, h) && 1 <= h <= 12 && NumberText(mm, mi) && mi < 60
    requires IsMeridiem(w) && (w[0] in "aA" <==> m == AM)
    requires forall k :: 0 <= k < |lead| ==> IsSpace(lead[k])
    requires forall k :: 0 <= k < |gap| ==> IsSpace(gap[k])
    requires forall k :: 0 <= k < |trail| ==> IsSpace(trail[k])
    ensures TimeText(s, lead, hh, h, mm, mi, gap, w, m, trail)
  {
  }

  /** Undoing the substitution and `upper()` on an accepted clock text. */
  lemma NormalizedBack(t: string, hh: string, h: nat, mm: string, mi: nat, g: string, v: string)
    returns (gap: string, w: string)
    requires NumberText(hh, h) && NumberText(mm, mi) && IsMeridiem(v)
    requires g != [] && forall k :: 0 <= k < |g| ==> IsSpace(g[k])
    requires Upper(SpaceMeridiem(t, false)) == hh + ":" + mm + g + v
    ensures IsMeridiem(w) && (w[0] in "aA" <==> v[0] in "aA")
    ensures forall k :: 0 <= k < |gap| ==> IsSpace(gap[k])
    ensures t == hh + ":" + mm + gap + w
  {
    var x := hh + ":" + mm;
    ClockPrefixChars(hh, h, mm, mi, g);
    w := UpperedBack(SpaceMeridiem(t, false), x, g, v);
    gap := SpacedBack(t, x, g, w);
  }

  /** Undoing `upper()`: the letter-free clock text and whitespace were
      there as they are. */
  lemma UpperedBack(sp: string, x: string, g: string, v: string) returns (w: string)
    requires Upper(sp) == x + g + v && IsMeridiem(v)
    requires forall k :: 0 <= k < |x + g| ==> IsDigit((x + g)[k]) || (x + g)[k] == ':' || IsSpace((x + g)[k])
    ensures sp == x + (g + w) && IsMeridiem(w) && (w[0] in "aA" <==> v[0] in "aA")
  {
    assert x + g + v == (x + g) + v;
    w := UpperBack(sp, x + g, v);
    assert (x + g) + w == x + (g + w);
  }

  /** Undoing the substitution behind the clock's hour and minute text. */
  lemma SpacedBack(t: string, x: string, g: string, w: string) returns (gap: string)
    requires SpaceMeridiem(t, false) == x + (g + w) && IsMeridiem(w)
    requires Inert(x) && x != [] && IsDigit(x[|x| - 1])
    requires g != [] && forall k :: 0 <= k < |g| ==> IsSpace(g[k])
    ensures forall k :: 0 <= k < |gap| ==> IsSpace(gap[k])
    ensures t == x + gap + w
  {
    assert (g + w)[0] == g[0];
    SpaceBack(t, false, x, g + w);
    gap := GapBack(t[|x|..], g, w);
    assert t == t[..|x|] + t[|x|..];
  }

  /** The clock text before AM/PM holds digits, ':' and whitespace only, and
      its hour and minute part ends in a digit. */
  lemma ClockPrefixChars(hh: string, h: nat, mm: string, mi: nat, g: string)
    requires NumberText(hh, h) && NumberText(mm, mi)
    requires forall k :: 0 <= k < |g| ==> IsSpace(g[k])
    ensures var x := hh + ":" + mm;
      Inert(x) && IsDigit(x[|x| - 1]) &&
      forall k :: 0 <= k < |x + g| ==> IsDigit((x + g)[k]) || (x + g)[k] == ':' || IsSpace((x + g)[k])
  {
    NumberTextDigits(hh, h);
    NumberTextDigits(mm, mi);
    var x := hh + ":" + mm;
    assert x[|x| - 1] == mm[|mm| - 1];
    forall k | 0 <= k < |x + g|
      ensures IsDigit((x + g)[k]) || (x + g)[k] == ':' || IsSpace((x + g)[k])
    {
      if k < |hh| {
        assert (x + g)[k] == hh[k];
      } else if k == |hh| {
        assert (x + g)[k] == ':';
      } else if k < |x| {
        assert (x + g)[k] == mm[k - |hh| - 1];
      } else {
        assert (x + g)[k] == g[k - |x|];
      }
    }
  }

  /** Before `upper()`: letter-free text was already there, and an upper-case
      AM/PM came from an AM/PM in some letter case. */
  lemma UpperBack(sp: string, y: string, u: string) returns (w: string)
    requires Upper(sp) == y + u && IsMeridiem(u)
    requires forall k :: 0 <= k < |y| ==> IsDigit(y[k]) || y[k] == ':' || IsSpace(y[k])
    ensures sp == y + w && IsMeridiem(w) && (w[0] in "aA" <==> u[0] in "aA")
  {
    w := sp[|y|..];
    forall k | 0 <= k < |y| ensures sp[k] == y[k] {
      assert Upper(sp)[k] == y[k];
      NotLetterBack(sp[k], y[k]);
    }
    assert sp[..|y|] == y;
    assert sp == sp[..|y|] + w;
    assert Upper(sp)[|y|] == u[0] && Upper(sp)[|y| + 1] == u[1];
    MeridiemCharBack(w[0], u[0], w[1], u[1]);
  }

  lemma NotLetterBack(c: char, d: char)
    requires UpperChar(c) == d && (IsDigit(d) || d == ':' || IsSpace(d))
    ensures c == d
  {
  }

  lemma MeridiemCharBack(a: char, ua: char, b: char, ub: char)
    requires UpperChar(a) == ua && UpperChar(b) == ub && IsMeridiem([ua, ub])
    ensures IsMeridiem([a, b]) && (a in "aA" <==> ua in "aA")
  {
  }

  /** Before the substitution, inert text at the front was already there;
      what follows is the substitution of the rest, which does not start an
      AM/PM. */
  lemma {:induction false} SpaceBack(t: string, afterDigit: bool, x: string, z: string)
    requires Inert(x) && SpaceMeridiem(t, afterDigit) == x + z
    requires z == [] || z[0] !in "aApP"
    ensures |x| <= |t| && t[..|x|] == x
    ensures SpaceMeridiem(t[|x|..], if x == [] then afterDigit else IsDigit(x[|x| - 1])) == z
    decreases |x|
  {
    if x != [] && |x + z| >= 2 {
      assert (x + z)[1] !in "aApP" by {
        if |x| >= 2 {
          assert (x + z)[1] == x[1];
        } else {
          assert (x + z)[1] == z[0];
        }
      }
    }
    if x == [] {
      assert t[..0] == [] && t[0..] == t;
    } else if afterDigit && |t| >= 2 && IsMeridiem(t[..2]) {
      assert false;
    } else {
      assert t != [];
      assert SpaceMeridiem(t, afterDigit) == [t[0]] + SpaceMeridiem(t[1..], IsDigit(t[0]));
      CopiedHead(t, x, z);
      SpaceBack(t[1..], IsDigit(t[0]), x[1..], z);
      SpaceBackJoin(t, x);
    }
  }

  lemma CopiedHead(t: string, x: string, z: string)
    requires t != [] && x != [] && Inert(x)
    requires [t[0]] + SpaceMeridiem(t[1..], IsDigit(t[0])) == x + z
    ensures t[0] == x[0] && SpaceMeridiem(t[1..], IsDigit(t[0])) == x[1..] + z && Inert(x[1..])
  {
    assert (x + z)[0] == x[0];
    assert (x + z)[1..] == x[1..] + z;
    forall k | 0 <= k < |x| - 1 ensures x[1..][k] == x[k + 1] { }
  }

  lemma SpaceBackJoin(t: string, x: string)
    requires t != [] && x != [] && t[0] == x[0] && |x| - 1 <= |t| - 1 && t[1..][..|x| - 1] == x[1..]
    ensures t[..|x|] == x && t[1..][|x| - 1..] == t[|x|..]
    ensures (if x[1..] == [] then IsDigit(t[0]) else IsDigit(x[1..][|x[1..]| - 1])) == IsDigit(x[|x| - 1])
  {
    assert t[..|x|] == [t[0]] + t[1..][..|x| - 1];
    assert x == [x[0]] + x[1..];
    if |x| > 1 {
      assert x[|x| - 1] == x[1..][|x[1..]| - 1];
    }
  }

  /** Before the substitution after a digit: whitespace then AM/PM was
      either the AM/PM glued to the digit, which gained a space, or was
      there as it is. */
  lemma GapBack(r: string, g: string, w: string) returns (gap: string)
    requires SpaceMeridiem(r, true) == g + w && IsMeridiem(w)
    requires g != [] && forall k :: 0 <= k < |g| ==> IsSpace(g[k])
    ensures r == gap + w && forall k :: 0 <= k < |gap| ==> IsSpace(gap[k])
  {
    if |r| >= 2 && IsMeridiem(r[..2]) {
      assert (g + w)[1] == r[0];
      assert |g| == 1;
      assert w == [r[0], r[1]] + SpaceMeridiem(r[2..], false) by {
        assert (g + w)[1..] == w;
      }
      assert r[2..] == [];
      assert r == [r[0], r[1]];
      gap := [];
    } else {
      assert r != [];
      assert SpaceMeridiem(r, true) == [r[0]] + SpaceMeridiem(r[1..], IsDigit(r[0]));
      assert r[0] == g[0] by {
        assert (g + w)[0] == g[0];
      }
      assert SpaceMeridiem(r[1..], false) == g[1..] + w by {
        assert (g + w)[1..] == g[1..] + w;
      }
      SpacesBack(r[1..], g[1..], w);
      gap := g;
    }
  }

  /** Before the substitution, not after a digit: whitespace then AM/PM
      was there as it is. */
  lemma {:induction false} SpacesBack(s: string, g: string, w: string)
    requires SpaceMeridiem(s, false) == g + w && IsMeridiem(w)
    requires forall k :: 0 <= k < |g| ==> IsSpace(g[k])
    ensures s == g + w
    decreases |g|
  {
    assert s != [];
    assert SpaceMeridiem(s, false) == [s[0]] + SpaceMeridiem(s[1..], IsDigit(s[0]));
    assert s[0] == (g + w)[0];
    if g == [] {
      assert g + w == w;
      var r := s[1..];
      assert SpaceMeridiem(r, false) == [w[1]];
      assert r != [];
      assert SpaceMeridiem(r, false) == [r[0]] + SpaceMeridiem(r[1..], IsDigit(r[0]));
      assert r[0] == w[1];
      assert r[1..] == [];
      assert s == [s[0]] + [r[0]];
    } else {
      assert SpaceMeridiem(s[1..], false) == g[1..] + w by {
        assert (g + w)[1..] == g[1..] + w;
      }
      SpacesBack(s[1..], g[1..], w);
    }
  }

  // ----------------------------------------------------------------- dates

  /** strptime's `%d`: `3[01]`, `[12]\d`, `0[1-9]`, `[1-9]`, ` [1-9]` tried in
      that order, each followed by the literal `sep`. */
  function DayOfMonth(s: string, i: nat, sep: char): (r: Option<(nat, nat)>)
    ensures r.Some? ==> 1 <= r.value.0 <= 31 && i + 2 <= r.value.1 <= i + 3 && r.value.1 <= |s|
    ensures r.Some? ==> s[r.value.1 - 1] == sep
  {
    if i + 3 <= |s| && s[i + 2] == sep &&
       ((s[i] == '3' && s[i + 1] in "01") || (s[i] in "12" && IsDigit(s[i + 1])) ||
        (s[i] == '0' && '1' <= s[i + 1] <= '9'))
    then Some((DigitValue(s[i]) * 10 + DigitValue(s[i + 1]), i + 3))
    else if i + 2 <= |s| && s[i + 1] == sep && '1' <= s[i] <= '9'
    then Some((DigitValue(s[i]), i + 2))
    else if i + 3 <= |s| && s[i] == ' ' && '1' <= s[i + 1] <= '9' && s[i + 2] == sep
    then Some((DigitValue(s[i + 1]), i + 3))
    else None
  }

  /** strptime's `%Y` (exactly four digits) at the end of the string. */
  function YearAtEnd(s: string, i: nat): (r: Option<nat>)
    ensures r.Some? ==> r.value <= 9999
  {
    if i + 4 == |s| && IsDigit(s[i]) && IsDigit(s[i + 1]) && IsDigit(s[i + 2]) && IsDigit(s[i + 3])
    then Some(((DigitValue(s[i]) * 10 + DigitValue(s[i + 1])) * 10 + DigitValue(s[i + 2])) * 10
              + DigitValue(s[i + 3]))
    else None
  }

  predicate LeapYear(y: nat) {
    y % 4 == 0 && (y % 100 != 0 || y % 400 == 0)
  }

  /** The length of month `m` of year `y` in the proleptic Gregorian calendar. */
  function DaysInMonth(y: nat, m: nat): (n: nat)
    requires 1 <= m <= 12
    ensures 28 <= n <= 31
  {
    if m == 2 then (if LeapYear(y) then 29 else 28)
    else if m in {4, 6, 9, 11} then 30
    else 31
  }

  /** A day `datetime.date` accepts: years 1 .. 9999 and a day that exists. */
  predicate ValidDate(y: nat, m: nat, d: nat) {
    1 <= y <= 9999 && 1 <= m <= 12 && 1 <= d <= DaysInMonth(y, m)
  }

  /** `datetime.strptime(s, '%m/%d/%Y').date()`, None for a ValueError. */
  function Date12(s: string): (r: Option<Date>)
    ensures r.Some? ==> exists y, m, d :: ValidDate(y, m, d) && r.value == DateOf(y, m, d)
  {
    match OneToTwelve(s, 0, '/')
    case None => None
    case Some((m, i)) =>
      match DayOfMonth(s, i, '/')
      case None => None
      case Some((d, j)) =>
        match YearAtEnd(s, j)
        case None => None
        case Some(y) => if ValidDate(y, m, d) then Some(DateOf(y, m, d)) else None
  }

  /** `parse_date`: strip and read '%m/%d/%Y'. */
  function ParseDate(dateStr: string): (r: Result<Date>)
    ensures r.Ok? ==> exists y, m, d :: ValidDate(y, m, d) && r.value == DateOf(y, m, d)
  {
    match Date12(Strip(dateStr))
    case Some(date) => Ok(date)
    case None => Err("Invalid date format: " + dateStr + ". Expected MM/DD/YYYY")
  }

  // --------------------------------------------------- readings of renderings

  /** `n` written with two digits, or with one when it is below 10. */
  predicate NumberText(t: string, n: nat) {
    n < 100 && (t == TwoDigits(n) || (n < 10 && t == [DigitChar(n)]))
  }

  /** The `%I` / `%m` pattern reads back a rendered 1 .. 12. */
  lemma OneToTwelveReads(t: string, n: nat, sep: char, rest: string)
    requires NumberText(t, n) && 1 <= n <= 12 && !IsDigit(sep)
    ensures OneToTwelve(t + [sep] + rest, 0, sep) == Some((n, |t| + 1))
  {
    var s := t + [sep] + rest;
    assert s[..|t|] == t && s[|t|] == sep;
  }

  /** A day of the month as `%d` reads it: one or two digits, or a space
      and one digit. */
  predicate DayText(t: string, n: nat) {
    NumberText(t, n) || (1 <= n <= 9 && t == [' ', DigitChar(n)])
  }

  /** The `%d` pattern reads back a rendered 1 .. 31 after any prefix. */
  lemma DayOfMonthReads(p: string, t: string, n: nat, sep: char, rest: string)
    requires DayText(t, n) && 1 <= n <= 31 && !IsDigit(sep)
    ensures DayOfMonth(p + t + [sep] + rest, |p|, sep) == Some((n, |p| + |t| + 1))
  {
    var s := p + t + [sep] + rest;
    assert s[|p|..|p| + |t|] == t && s[|p| + |t|] == sep;
  }

  /** The `%M` pattern reads back a rendered minute followed by whitespace. */
  lemma MinuteReads(p: string, t: string, n: nat, rest: string)
    requires NumberText(t, n) && n < 60
    requires rest != [] && IsSpace(rest[0])
    ensures MinuteThenSpace(p + t + rest, |p|) == Some((n, |p| + |t|))
  {
    var s := p + t + rest;
    assert s[|p|..|p| + |t|] == t && s[|p| + |t|] == rest[0];
  }

  function MeridiemText(m: Meridiem): string {
    if m == AM then "AM" else "PM"
  }

  /** Whitespace, then AM or PM, then the end: the tail reads back. */
  lemma MeridiemReads(p: string, g: string, m: Meridiem)
    requires g != [] && forall k :: 0 <= k < |g| ==> IsSpace(g[k])
    ensures MeridiemTail(p + g + MeridiemText(m), |p|) == Some(m)
  {
    var w := MeridiemText(m);
    var s := p + g + w;
    assert s[|p|..] == g + w;
    LeadingSpacesOf(g, w);
    assert s[|p| + |g|..] == w;
  }

  /** A clock reading rendered as strptime expects it is read back. */
  lemma Clock12Reads(hh: string, h: nat, mm: string, mi: nat, g: string, m: Meridiem)
    requires NumberText(hh, h) && 1 <= h <= 12 && NumberText(mm, mi) && mi < 60
    requires g != [] && forall k :: 0 <= k < |g| ==> IsSpace(g[k])
    ensures Clock12(hh + ":" + mm + g + MeridiemText(m)) == Some(ClockTime(To24(h, m), mi))
  {
    var w := MeridiemText(m);
    HourOfClockText(hh, h, mm, g, w);
    MinuteOfClockText(hh, mm, mi, g, w);
    MeridiemOfClockText(hh, mm, g, m);
    Clock12Of(hh + ":" + mm + g + w, h, |hh| + 1, mi, |hh| + 1 + |mm|, m);
  }

  lemma HourOfClockText(hh: string, h: nat, mm: string, g: string, w: string)
    requires NumberText(hh, h) && 1 <= h <= 12
    ensures OneToTwelve(hh + ":" + mm + g + w, 0, ':') == Some((h, |hh| + 1))
  {
    assert hh + ":" + mm + g + w == hh + [':'] + (mm + g + w);
    OneToTwelveReads(hh, h, ':', mm + g + w);
  }

  lemma MinuteOfClockText(hh: string, mm: string, mi: nat, g: string, w: string)
    requires NumberText(mm, mi) && mi < 60 && g != [] && IsSpace(g[0])
    ensures MinuteThenSpace(hh + ":" + mm + g + w, |hh| + 1) == Some((mi, |hh| + 1 + |mm|))
  {
    assert hh + ":" + mm + g + w == (hh + ":") + mm + (g + w);
    MinuteReads(hh + ":", mm, mi, g + w);
  }

  lemma MeridiemOfClockText(hh: string, mm: string, g: string, m: Meridiem)
    requires g != [] && forall k :: 0 <= k < |g| ==> IsSpace(g[k])
    ensures MeridiemTail(hh + ":" + mm + g + MeridiemText(m), |hh| + 1 + |mm|) == Some(m)
  {
    MeridiemReads(hh + ":" + mm, g, m);
  }

  /** Clock12 composes its three readers. */
  lemma Clock12Of(s: string, h: nat, i: nat, mi: nat, j: nat, m: Meridiem)
    requires OneToTwelve(s, 0, ':') == Some((h, i))
    requires MinuteThenSpace(s, i) == Some((mi, j))
    requires MeridiemTail(s, j) == Some(m)
    ensures Clock12(s) == Some(ClockTime(To24(h, m), mi))
  {
  }

  lemma NumberTextDigits(t: string, n: nat)
    requires NumberText(t, n)
    ensures 1 <= |t| <= 2 && forall k :: 0 <= k < |t| ==> IsDigit(t[k])
  {
  }

  /** After the substitution and `upper()`, a clock text with its AM/PM glued
      on or set apart by whitespace has whitespace before an upper-case AM/PM. */
  lemma NormalizedClockText(x: string, gap: string, w: string, m: Meridiem)
    requires Inert(x) && x != [] && IsDigit(x[|x| - 1])
    requires forall k :: 0 <= k < |gap| ==> IsSpace(gap[k])
    requires IsMeridiem(w) && (w[0] in "aA" <==> m == AM)
    ensures Upper(SpaceMeridiem(x + gap + w, false)) ==
      x + (if gap == [] then " " else gap) + MeridiemText(m)
  {
    var g := if gap == [] then " " else gap;
    SpacedClockText(x, gap, w);
    UpperClockText(x + g, w, m);
  }

  lemma SpacedClockText(x: string, gap: string, w: string)
    requires Inert(x) && x != [] && IsDigit(x[|x| - 1])
    requires forall k :: 0 <= k < |gap| ==> IsSpace(gap[k])
    requires IsMeridiem(w)
    ensures SpaceMeridiem(x + gap + w, false) == x + (if gap == [] then " " else gap) + w
  {
    assert x + gap + w == x + (gap + w);
    SpaceMeridiemInert(x, gap + w, false);
    if gap == [] {
      assert gap + w == w;
      MeridiemSpaced(w, true);
    } else {
      SpaceMeridiemInert(gap, w, true);
      MeridiemSpaced(w, false);
    }
  }

  lemma UpperClockText(y: string, w: string, m: Meridiem)
    requires Inert(y)
    requires IsMeridiem(w) && (w[0] in "aA" <==> m == AM)
    ensures Upper(y + w) == y + MeridiemText(m)
  {
    UpperAppend(y, w);
    UpperInert(y);
    assert Upper(w) == MeridiemText(m);
  }

  /** Reading a time is reading its stripped, spaced and upper-cased text. */
  lemma ParseTimeVia(lead: string, core: string, trail: string, u: string, t: Time)
    requires forall k :: 0 <= k < |lead| ==> IsSpace(lead[k])
    requires forall k :: 0 <= k < |trail| ==> IsSpace(trail[k])
    requires core != [] && !IsSpace(core[0]) && !IsSpace(core[|core| - 1])
    requires Upper(SpaceMeridiem(core, false)) == u && Clock12(u) == Some(t)
    ensures ParseTime(lead + core + trail) == Ok(t)
  {
    StripPadded(lead, core, trail);
  }

  /** `parse_time` reads every rendering of a 12-hour clock time: hour and
      minute with one or two digits, AM/PM in any letter case, glued to the
      minutes or after any whitespace, and whitespace around the whole. In
      particular "09:00AM", "09:00 am" and " 9:00  AM " all read as 9:00. */
  lemma ParseTimeReads(lead: string, hh: string, h: nat, mm: string, mi: nat, gap: string,
                       w: string, m: Meridiem, trail: string)
    requires NumberText(hh, h) && 1 <= h <= 12 && NumberText(mm, mi) && mi < 60
    requires IsMeridiem(w) && (w[0] in "aA" <==> m == AM)
    requires forall k :: 0 <= k < |lead| ==> IsSpace(lead[k])
    requires forall k :: 0 <= k < |gap| ==> IsSpace(gap[k])
    requires forall k :: 0 <= k < |trail| ==> IsSpace(trail[k])
    ensures ParseTime(lead + (hh + ":" + mm + gap + w) + trail) == Ok(ClockTime(To24(h, m), mi))
  {
    var x := hh + ":" + mm;
    var core := x + gap + w;
    var g := if gap == [] then " " else gap;
    var u := x + g + MeridiemText(m);
    ClockTextFacts(hh, h, mm, mi, gap, w);
    NormalizedClockText(x, gap, w, m);
    Clock12Reads(hh, h, mm, mi, g, m);
    ParseTimeVia(lead, core, trail, u, ClockTime(To24(h, m), mi));
  }

  lemma ClockTextFacts(hh: string, h: nat, mm: string, mi: nat, gap: string, w: string)
    requires NumberText(hh, h) && NumberText(mm, mi) && IsMeridiem(w)
    requires forall k :: 0 <= k < |gap| ==> IsSpace(gap[k])
    ensures var x := hh + ":" + mm;
      Inert(x) && IsDigit(x[|x| - 1]) && !IsSpace(x[0]) &&
      (x + gap + w)[0] == x[0] && !IsSpace(w[1]) && (x + gap + w)[|x + gap + w| - 1] == w[1]
  {
    NumberTextDigits(hh, h);
    NumberTextDigits(mm, mi);
    var x := hh + ":" + mm;
    assert x[|x| - 1] == mm[|mm| - 1];
  }

  /** The last character survives the substitution. */
  lemma {:induction false} SpaceMeridiemLast(s: string, afterDigit: bool)
    requires s != []
    ensures var r := SpaceMeridiem(s, afterDigit); r[|r| - 1] == s[|s| - 1]
    decreases |s|
  {
    if afterDigit && |s| >= 2 && IsMeridiem(s[..2]) {
      if |s| > 2 {
        SpaceMeridiemLast(s[2..], false);
      }
    } else if |s| > 1 {
      SpaceMeridiemLast(s[1..], IsDigit(s[0]));
    }
  }

  /** A time without AM/PM at its end is rejected: "09:00" and "21:00" do
      not parse. */
  lemma ParseTimeNeedsMeridiem(s: string)
    requires ParseTime(s).Ok?
    ensures Strip(s) != [] && Strip(s)[|Strip(s)| - 1] in "mM"
  {
    var t := Strip(s);
    Clock12EndsInM(Upper(SpaceMeridiem(t, false)));
    UpperEndsInM(SpaceMeridiem(t, false));
    SpaceMeridiemEndsInM(t);
  }

  lemma UpperEndsInM(r: string)
    requires Upper(r) != [] && Upper(r)[|Upper(r)| - 1] in "mM"
    ensures r != [] && r[|r| - 1] in "mM"
  {
    assert Upper(r)[|r| - 1] == UpperChar(r[|r| - 1]);
  }

  lemma SpaceMeridiemEndsInM(t: string)
    requires var r := SpaceMeridiem(t, false); r != [] && r[|r| - 1] in "mM"
    ensures t != [] && t[|t| - 1] in "mM"
  {
    SpaceMeridiemLast(t, false);
  }

  /** Whatever '%I:%M %p' accepts ends in M. */
  lemma Clock12EndsInM(u: string)
    requires Clock12(u).Some?
    ensures u != [] && u[|u| - 1] in "mM"
  {
    var j := OneToTwelve(u, 0, ':').value.1;
    var q := MinuteThenSpace(u, j).value.1;
    var e := q + LeadingSpaces(u[q..]);
    assert IsMeridiem(u[e..]) && u[e..][1] == u[|u| - 1];
  }

  /** A two-digit hour outside 01 .. 12 is rejected: "13:00 PM", "00:30 AM". */
  lemma ParseTimeRejectsHour(n: nat, rest: string)
    requires n == 0 || 13 <= n <= 99
    ensures ParseTime(TwoDigits(n) + ":" + rest).Err?
  {
    var x := TwoDigits(n) + ":";
    var s := x + rest;
    assert s[0] == x[0];
    StripKeepsFront(s);
    var t := Strip(s);
    if |t| >= 3 {
      LongHourRejected(t, x, n);
    } else {
      ShortHourRejected(t, x);
    }
  }

  lemma LongHourRejected(t: string, x: string, n: nat)
    requires n == 0 || 13 <= n <= 99
    requires x == TwoDigits(n) + ":" && |t| >= 3 && t[..3] == x
    ensures OneToTwelve(Upper(SpaceMeridiem(t, false)), 0, ':').None?
  {
    assert t == x + t[3..];
    NormalizedPrefix(x, t[3..]);
    HourRejected(Upper(SpaceMeridiem(t, false)), n);
  }

  lemma HourRejected(u: string, n: nat)
    requires n == 0 || 13 <= n <= 99
    requires |u| >= 3 && u[..3] == TwoDigits(n) + ":"
    ensures OneToTwelve(u, 0, ':').None?
  {
    assert u[0] == TwoDigits(n)[0] && u[1] == TwoDigits(n)[1];
  }

  lemma ShortHourRejected(t: string, x: string)
    requires 1 <= |t| < 3 && Inert(x) && |x| >= 2 && IsDigit(x[1]) && t == x[..|t|]
    ensures OneToTwelve(Upper(SpaceMeridiem(t, false)), 0, ':').None?
  {
    assert Inert(t) by {
      forall k | 0 <= k < |t| ensures t[k] == x[k] { }
    }
    NormalizedPrefix(t, []);
    assert t + [] == t;
    assert Upper(SpaceMeridiem(t, false)) == t;
    assert |t| == 2 ==> t[1] == x[1];
  }

  /** Inert text keeps its place at the front through the substitution and
      `upper()`. */
  lemma NormalizedPrefix(x: string, z: string)
    requires Inert(x) && x != []
    ensures Upper(SpaceMeridiem(x + z, false)) == x + Upper(SpaceMeridiem(z, IsDigit(x[|x| - 1])))
  {
    SpaceMeridiemInert(x, z, false);
    UpperAppend(x, SpaceMeridiem(z, IsDigit(x[|x| - 1])));
    UpperInert(x);
  }

  // ----------------------------------------------------- readings of dates

  /** A year written with four digits, zero-padded. */
  function FourDigits(y: nat): (t: string)
    requires y <= 9999
    ensures |t| == 4 && forall k :: 0 <= k < 4 ==> IsDigit(t[k])
  {
    TwoDigits(y / 100) + TwoDigits(y % 100)
  }

  lemma YearReads(p: string, y: nat)
    requires y <= 9999
    ensures YearAtEnd(p + FourDigits(y), |p|) == Some(y)
  {
    var s := p + FourDigits(y);
    var f := FourDigits(y);
    assert s[|p|..] == f;
    var hi, lo := DigitValue(f[0]) * 10 + DigitValue(f[1]), DigitValue(f[2]) * 10 + DigitValue(f[3]);
    assert hi == y / 100 && lo == y % 100;
    assert ((DigitValue(f[0]) * 10 + DigitValue(f[1])) * 10 + DigitValue(f[2])) * 10 + DigitValue(f[3])
        == hi * 100 + lo;
  }

  /** `parse_date` reads "MM/DD/YYYY", month and day with one or two digits
      (the day also as a space and one digit) and whitespace around: it gives that day when the calendar has it, and
      an error otherwise (a 30th of February, a 29th of February outside a
      leap year, a 31st of a 30-day month, the year 0000). */
  lemma ParseDateReads(lead: string, mt: string, mo: nat, dt: string, d: nat, y: nat, trail: string)
    requires NumberText(mt, mo) && 1 <= mo <= 12 && DayText(dt, d) && 1 <= d <= 31 && y <= 9999
    requires forall k :: 0 <= k < |lead| ==> IsSpace(lead[k])
    requires forall k :: 0 <= k < |trail| ==> IsSpace(trail[k])
    ensures var r := ParseDate(lead + (mt + "/" + dt + "/" + FourDigits(y)) + trail);
      (r.Ok? <==> ValidDate(y, mo, d)) && (r.Ok? ==> r.value == DateOf(y, mo, d))
  {
    var core := mt + "/" + dt + "/" + FourDigits(y);
    NumberTextDigits(mt, mo);
    assert core[0] == mt[0] && core[|core| - 1] == FourDigits(y)[3];
    StripPadded(lead, core, trail);
    Date12Reads(mt, mo, dt, d, y);
  }

  lemma Date12Reads(mt: string, mo: nat, dt: string, d: nat, y: nat)
    requires NumberText(mt, mo) && 1 <= mo <= 12 && DayText(dt, d) && 1 <= d <= 31 && y <= 9999
    ensures Date12(mt + "/" + dt + "/" + FourDigits(y)) ==
      if ValidDate(y, mo, d) then Some(DateOf(y, mo, d)) else None
  {
    var s := mt + "/" + dt + "/" + FourDigits(y);
    assert s == mt + ['/'] + (dt + "/" + FourDigits(y));
    OneToTwelveReads(mt, mo, '/', dt + "/" + FourDigits(y));
    assert s == (mt + "/") + dt + ['/'] + FourDigits(y);
    DayOfMonthReads(mt + "/", dt, d, '/', FourDigits(y));
    assert s == (mt + "/" + dt + "/") + FourDigits(y);
    YearReads(mt + "/" + dt + "/", y);
  }

  /** `s` is the date `y`-`mo`-`d` written as '%m/%d/%Y' reads it, with
      whitespace `lead` before it and `trail` after it. */
  predicate DateText(s: string, lead: string, mt: string, mo: nat, dt: string, d: nat, y: nat, trail: string) {
    NumberText(mt, mo) && 1 <= mo <= 12 && DayText(dt, d) && y <= 9999 &&
    (forall k :: 0 <= k < |lead| ==> IsSpace(lead[k])) &&
    (forall k :: 0 <= k < |trail| ==> IsSpace(trail[k])) &&
    s == lead + (mt + "/" + dt + "/" + FourDigits(y)) + trail
  }

  /** What '%m/%d/%Y' accepts is a month 1 .. 12 with one or two digits, '/',
      a day with one or two digits or a space and a digit, '/', and a
      four-digit year, and nothing else, forming a day the calendar has;
      the date read is that day. */
  lemma Date12Accepts(s: string)
    requires Date12(s).Some?
    ensures exists mt, mo, dt, d, y ::
      DateText(s, [], mt, mo, dt, d, y, []) && ValidDate(y, mo, d) && Date12(s) == Some(DateOf(y, mo, d))
  {
    var (mo, i) := OneToTwelve(s, 0, '/').value;
    var (d, j) := DayOfMonth(s, i, '/').value;
    var y := YearAtEnd(s, j).value;
    var mt, dt := Date12Shape(s, mo, i, d, j, y);
    assert s == [] + (mt + "/" + dt + "/" + FourDigits(y)) + [];
    assert DateText(s, [], mt, mo, dt, d, y, []);
  }

  /** The pieces Date12's three readers consume. */
  lemma Date12Shape(s: string, mo: nat, i: nat, d: nat, j: nat, y: nat) returns (mt: string, dt: string)
    requires OneToTwelve(s, 0, '/') == Some((mo, i))
    requires DayOfMonth(s, i, '/') == Some((d, j))
    requires YearAtEnd(s, j) == Some(y)
    ensures NumberText(mt, mo) && DayText(dt, d)
    ensures s == mt + "/" + dt + "/" + FourDigits(y)
  {
    OneToTwelveText(s, '/');
    DayOfMonthText(s, i, '/');
    YearText(s, j);
    mt, dt := s[..i - 1], s[i..j - 1];
    SlashFields(s, i, j);
  }

  lemma SlashFields(s: string, i: nat, j: nat)
    requires 1 <= i < j <= |s| && s[i - 1] == '/' && s[j - 1] == '/'
    ensures s == s[..i - 1] + "/" + s[i..j - 1] + "/" + s[j..]
  {
    assert s == s[..i - 1] + [s[i - 1]] + s[i..j - 1] + [s[j - 1]] + s[j..];
  }

  /** What the `%d` pattern accepts is a rendered day. */
  lemma DayOfMonthText(s: string, i: nat, sep: char)
    requires DayOfMonth(s, i, sep).Some?
    ensures var r := DayOfMonth(s, i, sep).value; DayText(s[i..r.1 - 1], r.0)
  {
    var r := DayOfMonth(s, i, sep).value;
    if i + 3 <= |s| && s[i + 2] == sep &&
       ((s[i] == '3' && s[i + 1] in "01") || (s[i] in "12" && IsDigit(s[i + 1])) ||
        (s[i] == '0' && '1' <= s[i + 1] <= '9')) {
      DigitsText(s[i], s[i + 1]);
      assert s[i..i + 2] == [s[i], s[i + 1]];
    } else if i + 2 <= |s| && s[i + 1] == sep && '1' <= s[i] <= '9' {
      DigitText(s[i]);
      assert s[i..i + 1] == [s[i]];
    } else {
      DigitText(s[i + 1]);
      assert s[i..i + 2] == [s[i], s[i + 1]];
    }
  }

  /** What the `%Y` pattern accepts is the four-digit rendering of the year. */
  lemma YearText(s: string, i: nat)
    requires YearAtEnd(s, i).Some?
    ensures s[i..] == FourDigits(YearAtEnd(s, i).value)
  {
    var y := YearAtEnd(s, i).value;
    var hi := DigitValue(s[i]) * 10 + DigitValue(s[i + 1]);
    var lo := DigitValue(s[i + 2]) * 10 + DigitValue(s[i + 3]);
    assert y == hi * 100 + lo;
    assert y / 100 == hi && y % 100 == lo;
    DigitsText(s[i], s[i + 1]);
    DigitsText(s[i + 2], s[i + 3]);
    assert s[i..] == [s[i], s[i + 1]] + [s[i + 2], s[i + 3]];
  }

  /** What `parse_date` accepts is such a date with whitespace around it,
      and nothing else. */
  lemma ParseDateAccepts(s: string)
    requires ParseDate(s).Ok?
    ensures exists lead, mt, mo, dt, d, y, trail ::
      DateText(s, lead, mt, mo, dt, d, y, trail) && ValidDate(y, mo, d) && ParseDate(s) == Ok(DateOf(y, mo, d))
  {
    assert Date12(Strip(s)) == Some(ParseDate(s).value);
    ParseDateShape(s, ParseDate(s).value);
  }

  lemma ParseDateShape(s: string, date: Date)
    requires Date12(Strip(s)) == Some(date)
    ensures exists lead, mt, mo, dt, d, y, trail ::
      DateText(s, lead, mt, mo, dt, d, y, trail) && ValidDate(y, mo, d) && date == DateOf(y, mo, d)
  {
    var t := Strip(s);
    Date12Accepts(t);
    var mt, mo, dt, d, y :| DateText(t, [], mt, mo, dt, d, y, []) && ValidDate(y, mo, d) &&
                           Date12(t) == Some(DateOf(y, mo, d));
    var lead, trail := StripParts(s);
    DateTextOf(s, lead, t, trail, mt, mo, dt, d, y);
  }

  lemma DateTextOf(s: string, lead: string, t: string, trail: string,
                   mt: string, mo: nat, dt: string, d: nat, y: nat)
    requires s == lead + t + trail && DateText(t, [], mt, mo, dt, d, y, [])
    requires forall k :: 0 <= k < |lead| ==> IsSpace(lead[k])
    requires forall k :: 0 <= k < |trail| ==> IsSpace(trail[k])
    ensures DateText(s, lead, mt, mo, dt, d, y, trail)
  {
    assert t == mt + "/" + dt + "/" + FourDigits(y);
  }
}
