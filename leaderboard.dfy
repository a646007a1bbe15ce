/** The leaderboard: entries of (seconds, "MM:SS", name) kept in a text file
    with one "MM:SS,name" line per entry, at most five, fastest first. */
module Leaderboard {

  datatype Option<T> = None | Some(value: T)

  /** One leaderboard row: the seconds, their "MM:SS" form and the name. */
  datatype Entry = Entry(time: int, formattedTime: string, name: string)

  const IntMin := -0x8000_0000
  const IntMax := 0x7fff_ffff

  // ---------------------------------------------------------------------
  // Integer text
  // ---------------------------------------------------------------------

  /** C++ integer division, truncating toward zero (b > 0). */
  function TruncDiv(a: int, b: int): (q: int)
    requires b > 0
    ensures a >= 0 ==> q == a / b
    ensures a < 0 ==> q == -((-a) / b)
  {
    if a >= 0 then a / b else -((-a) / b)
  }

  /** C++ remainder, with the sign of the dividend (b > 0). */
  function TruncMod(a: int, b: int): (r: int)
    requires b > 0
    ensures a == b * TruncDiv(a, b) + r
    ensures a >= 0 ==> 0 <= r < b
    ensures a < 0 ==> -b < r <= 0
  {
    a - b * TruncDiv(a, b)
  }

  predicate IsDigit(c: char) {
    '0' <= c <= '9'
  }

  function DigitChar(d: int): (c: char)
    requires 0 <= d < 10
    ensures IsDigit(c) && DigitOf(c) == d
  {
    (48 + d) as char
  }

  function DigitOf(c: char): int
    requires IsDigit(c)
  {
    c as int - 48
  }

  predicate AllDigits(s: string) {
    forall i :: 0 <= i < |s| ==> IsDigit(s[i])
  }

  /** The number a string of decimal digits spells, most significant first. */
  function DigitsValue(s: string): (v: nat)
    requires AllDigits(s)
    decreases |s|
  {
    if s == [] then 0 else 10 * DigitsValue(s[..|s| - 1]) + DigitOf(s[|s| - 1])
  }

  /** What `operator<<` writes for an int: a minus sign for negatives, then
      the decimal digits with no leading zero. */
  function IntToString(n: int): (s: string)
    ensures |s| > 0
    decreases if n < 0 then 1 - n else n
  {
    if n < 0 then "-" + IntToString(-n)
    else if n < 10 then [DigitChar(n)]
    else IntToString(n / 10) + [DigitChar(n % 10)]
  }

  /** A non-negative number is written as digits that spell it back; one
      digit below 10, two below 100. */
  lemma {:induction false} IntToStringDigits(n: nat)
    ensures AllDigits(IntToString(n)) && DigitsValue(IntToString(n)) == n
    ensures n < 10 ==> |IntToString(n)| == 1
    ensures 10 <= n < 100 ==> |IntToString(n)| == 2
    decreases n
  {
    var s := IntToString(n);
    if n >= 10 {
      IntToStringDigits(n / 10);
      assert s[..|s| - 1] == IntToString(n / 10);
    }
  }

  // ---------------------------------------------------------------------
  // std::stoi and std::string::substr
  // ---------------------------------------------------------------------

  /** isspace in the C locale. */
  predicate IsSpace(c: char) {
    c == ' ' || c == '\t' || c == '\n' || c == '\r' || c == 11 as char || c == 12 as char
  }

  function SkipSpaces(s: string): (t: string)
    ensures |t| <= |s| && t == s[|s| - |t|..]
    ensures t != [] ==> !IsSpace(t[0])
  {
    if s != [] && IsSpace(s[0]) then SkipSpaces(s[1..]) else s
  }

  /** The number of digits at the front of s. */
  function LeadingDigits(s: string): (n: nat)
    ensures n <= |s| && AllDigits(s[..n])
    ensures n < |s| ==> !IsDigit(s[n])
  {
    if s != [] && IsDigit(s[0]) then
      var k := LeadingDigits(s[1..]);
      assert s[..k + 1] == [s[0]] + s[1..][..k];
      k + 1
    else 0
  }

  /** std::stoi: leading white space, an optional sign, then as many digits as
      follow. No digit at all, or a value outside int, throws: None. */
  function Stoi(s: string): (r: Option<int>)
    ensures r.Some? ==> IntMin <= r.value <= IntMax
  {
    var t := SkipSpaces(s);
    var signed := t != [] && (t[0] == '-' || t[0] == '+');
    var u := if signed then t[1..] else t;
    var n := LeadingDigits(u);
    if n == 0 then None
    else
      var v := if signed && t[0] == '-' then -(DigitsValue(u[..n]) as int) else DigitsValue(u[..n]) as int;
      if IntMin <= v <= IntMax then Some(v) else None
  }

  /** A string of digits alone, short enough for an int, reads back as its value. */
  lemma StoiDigits(s: string)
    requires s != [] && AllDigits(s) && DigitsValue(s) <= IntMax
    ensures Stoi(s) == Some(DigitsValue(s))
  {
    assert SkipSpaces(s) == s;
    assert !(s[0] == '-' || s[0] == '+');
    LeadingDigitsAll(s);
    assert s[..|s|] == s;
  }

  lemma {:induction false} LeadingDigitsAll(s: string)
    requires AllDigits(s)
    ensures LeadingDigits(s) == |s|
  {
    if s != [] {
      LeadingDigitsAll(s[1..]);
    }
  }

  /** std::string::substr(pos, len): throws (None) when pos is past the end;
      otherwise at most len characters from pos. */
  function Substr(s: string, pos: nat, len: nat): (r: Option<string>)
    ensures pos > |s| <==> r.None?
    ensures r.Some? ==> |r.value| == (if pos + len <= |s| then len else |s| - pos)
    ensures r.Some? ==> r.value == s[pos..pos + |r.value|]
  {
    if pos > |s| then None
    else if pos + len <= |s| then Some(s[pos..pos + len])
    else Some(s[pos..])
  }

  // ---------------------------------------------------------------------
  // formatTime and the file's line format
  // ---------------------------------------------------------------------

  /** One side of formatTime: a "0" before a value below 10, then the value. */
  function Padded(n: int): (s: string)
  {
    (if n < 10 then "0" else "") + IntToString(n)
  }

  /** formatTime: minutes and seconds by C++ division, each padded to two
      digits when below 10, joined by ':'. */
  function FormatTime(totalSeconds: int): string {
    Padded(TruncDiv(totalSeconds, 60)) + ":" + Padded(TruncMod(totalSeconds, 60))
  }

  /** A value from 0 to 99 pads to exactly two digits that spell it. */
  lemma PaddedTwoDigits(n: int)
    requires 0 <= n < 100
    ensures |Padded(n)| == 2 && AllDigits(Padded(n)) && DigitsValue(Padded(n)) == n
  {
    IntToStringDigits(n);
    var s := Padded(n);
    if n < 10 {
      assert s == ['0'] + IntToString(n);
      assert s[..1] == ['0'];
      assert DigitsValue(s[..1]) == 0;
    } else {
      assert s == IntToString(n);
    }
  }

  /** Below 100 minutes formatTime gives "MM:SS": five characters, the
      minutes in the first two and the seconds in the last two. */
  lemma FormatTimeShape(t: int)
    requires 0 <= t < 6000
    ensures var f := FormatTime(t);
            && |f| == 5 && f[2] == ':'
            && AllDigits(f[..2]) && DigitsValue(f[..2]) == t / 60
            && AllDigits(f[3..]) && DigitsValue(f[3..]) == t % 60
  {
    PaddedTwoDigits(t / 60);
    PaddedTwoDigits(t % 60);
    var f := FormatTime(t);
    assert f == Padded(t / 60) + ":" + Padded(t % 60);
    assert f[..2] == Padded(t / 60);
    assert f[3..] == Padded(t % 60);
  }

  /** The position of the first ',' in s, or |s| when there is none. */
  function CommaAt(s: string): (i: nat)
    ensures i <= |s| && (i < |s| ==> s[i] == ',')
    ensures forall k :: 0 <= k < i ==> s[k] != ','
  {
    if s == [] || s[0] == ',' then 0 else 1 + CommaAt(s[1..])
  }

  /** The two getline calls on one line: the time text up to the first ','
      and the name, which is everything after it. */
  function SplitLine(line: string): (string, string) {
    var i := CommaAt(line);
    (line[..i], if i < |line| then line[i + 1..] else "")
  }

  /** The body of the read loop of loadLeaderboard for one line: the minutes
      from the first two characters of the time text and the seconds from
      the two after the ':'. Any stoi or substr that throws gives None. */
  function ParseLine(line: string): (r: Option<Entry>)
    ensures r.Some? ==> r.value.formattedTime == SplitLine(line).0 && r.value.name == SplitLine(line).1
  {
    var (timeStr, name) := SplitLine(line);
    var t := ParseTime(timeStr);
    if t.None? then None else Some(Entry(t.value, timeStr, name))
  }

  /** The seconds a time text stands for: stoi of its first two characters
      times 60 plus stoi of the two after the third. */
  function ParseTime(timeStr: string): Option<int> {
    var ms, ss := Substr(timeStr, 0, 2), Substr(timeStr, 3, 2);
    if ms.None? || ss.None? then None else MinutesSeconds(Stoi(ms.value), Stoi(ss.value))
  }

  /** minutes * 60 + seconds once both stoi calls have succeeded. */
  function MinutesSeconds(minutes: Option<int>, seconds: Option<int>): Option<int> {
    if minutes.None? || seconds.None? then None else Some(minutes.value * 60 + seconds.value)
  }

  /** Below 100 minutes the time text reads back as the seconds it was made from. */
  lemma ParseFormatTime(t: int)
    requires 0 <= t < 6000
    ensures ParseTime(FormatTime(t)) == Some(t)
  {
    FormatTimeFields(t);
    ParseTimeParts(FormatTime(t));
    MinutesSecondsOf(t);
  }

  /** Minutes and seconds put back together give the time they came from. */
  lemma MinutesSecondsOf(t: int)
    requires 0 <= t
    ensures MinutesSeconds(Some(t / 60), Some(t % 60)) == Some(t)
  {
  }

  /** stoi reads the minutes and the seconds back from the two halves of formatTime's text. */
  lemma FormatTimeFields(t: int)
    requires 0 <= t < 6000
    ensures var f := FormatTime(t);
            |f| == 5 && Stoi(f[..2]) == Some(t / 60) && Stoi(f[3..]) == Some(t % 60)
  {
    var f := FormatTime(t);
    FormatTimeShape(t);
    StoiDigits(f[..2]);
    StoiDigits(f[3..]);
  }

  /** A five-character time text is read from its first two and its last two characters. */
  lemma ParseTimeParts(f: string)
    requires |f| == 5
    ensures ParseTime(f) == MinutesSeconds(Stoi(f[..2]), Stoi(f[3..]))
  {
    assert Substr(f, 0, 2) == Some(f[..2]);
    assert f[3..5] == f[3..];
    assert Substr(f, 3, 2) == Some(f[3..]);
  }

  /** A line made of a comma-free text, a comma and a name splits back into the two. */
  lemma SplitJoined(time: string, name: string)
    requires forall k :: 0 <= k < |time| ==> time[k] != ','
    ensures SplitLine(time + "," + name) == (time, name)
  {
    var line := time + "," + name;
    CommaAtFirst(line, |time|);
    assert line[..|time|] == time && line[|time| + 1..] == name;
  }

  /** The line saveLeaderboard writes for an entry. */
  function SaveLine(e: Entry): string {
    e.formattedTime + "," + e.name
  }

  /** An entry as addPlayerScore makes it for a time below 100 minutes. */
  predicate Recordable(e: Entry) {
    0 <= e.time < 6000 && e.formattedTime == FormatTime(e.time)
  }

  /** Parsing the saved line of a recordable entry gives the entry back. */
  lemma ParseSaveLine(e: Entry)
    requires Recordable(e)
    ensures ParseLine(SaveLine(e)) == Some(e)
  {
    FormatTimeShape(e.time);
    var f := e.formattedTime;
    forall k | 0 <= k < |f|
      ensures f[k] != ','
    {
      if k < 2 {
        assert f[k] == f[..2][k];
      } else if k > 2 {
        assert f[k] == f[3..][k - 3];
      }
    }
    SplitJoined(e.formattedTime, e.name);
    ParseFormatTime(e.time);
  }

  lemma {:induction false} CommaAtFirst(s: string, i: nat)
    requires i < |s| && s[i] == ',' && forall k :: 0 <= k < i ==> s[k] != ','
    ensures CommaAt(s) == i
  {
    if i > 0 {
      CommaAtFirst(s[1..], i - 1);
    }
  }

  /** At 100 minutes the round trip breaks: formatTime(6000) is "100:00", the
      seconds are read from ":0", and stoi throws. */
  lemma ParseFailsAt6000(name: string)
    ensures FormatTime(6000) == "100:00"
    ensures ParseLine(SaveLine(Entry(6000, FormatTime(6000), name))) == None
  {
    FormatTime6000();
    SplitJoined("100:00", name);
    SecondsOf6000();
  }

  lemma FormatTime6000()
    ensures FormatTime(6000) == "100:00"
  {
    assert IntToString(10) == "10";
    assert IntToString(100) == "100";
    assert IntToString(0) == "0";
  }

  lemma SecondsOf6000()
    ensures ParseTime("100:00") == None
  {
    var f := "100:00";
    assert Substr(f, 3, 2) == Some(f[3..5]);
    assert f[3..5][0] == ':';
    StoiNoDigit(f[3..5]);
  }

  /** Text that starts with something other than white space, a sign or a
      digit makes stoi throw. */
  lemma StoiNoDigit(s: string)
    requires s != [] && !IsSpace(s[0]) && s[0] != '-' && s[0] != '+' && !IsDigit(s[0])
    ensures Stoi(s).None?
  {
    assert SkipSpaces(s) == s;
    assert LeadingDigits(s) == 0;
  }

  /** The entries the read loop collects from the lines, in file order; None
      as soon as one line throws. */
  function ParseLines(lines: seq<string>): (r: Option<seq<Entry>>)
    ensures r.Some? ==> |r.value| == |lines|
    decreases |lines|
  {
    if lines == [] then Some([])
    else Collect(ParseLines(lines[..|lines| - 1]), ParseLine(lines[|lines| - 1]))
  }

  /** One push_back of the read loop: the entries so far and the next line's
      entry, or None when either has thrown. */
  function Collect(es: Option<seq<Entry>>, e: Option<Entry>): (r: Option<seq<Entry>>)
    ensures r.Some? <==> es.Some? && e.Some?
    ensures r.Some? ==> r.value == es.value + [e.value]
  {
    if es.None? || e.None? then None else Some(es.value + [e.value])
  }

  /** One more line is read after all the lines before it. */
  lemma ParseLinesAppend(lines: seq<string>, line: string)
    ensures ParseLines(lines + [line]) == Collect(ParseLines(lines), ParseLine(line))
  {
    assert (lines + [line])[..|lines|] == lines;
  }

  /** The first i + 1 elements are the first i and element i. */
  lemma TakeOneMore<T>(s: seq<T>, i: nat)
    requires i < |s|
    ensures s[..i + 1] == s[..i] + [s[i]]
    ensures i + 1 == |s| ==> s[..i] + [s[i]] == s
  {
  }

  /** All of a sequence is the sequence. */
  lemma TakeAll<T>(s: seq<T>)
    ensures s[..|s|] == s
  {
  }

  /** One turn of the read loop: after the entries of the first i lines, line
      i either throws, and then the whole file fails to load, or adds its entry. */
  lemma ReadStep(lines: seq<string>, i: nat, es: seq<Entry>)
    requires i < |lines| && ParseLines(lines[..i]) == Some(es)
    ensures ParseLine(lines[i]).None? ==> ParseLines(lines).None?
    ensures ParseLine(lines[i]).Some? ==> ParseLines(lines[..i + 1]) == Some(es + [ParseLine(lines[i]).value])
  {
    TakeOneMore(lines, i);
    ParseLinesAppend(lines[..i], lines[i]);
    if ParseLine(lines[i]).None? {
      NoParseAfter(lines, i + 1);
    }
  }

  function SaveLines(es: seq<Entry>): (lines: seq<string>)
    ensures |lines| == |es| && forall i :: 0 <= i < |es| ==> lines[i] == SaveLine(es[i])
    decreases |es|
  {
    if es == [] then [] else SaveLines(es[..|es| - 1]) + [SaveLine(es[|es| - 1])]
  }

  /** Saving recordable entries and reading the file back gives them back, in order. */
  lemma {:induction false} SaveThenParse(es: seq<Entry>)
    requires forall i :: 0 <= i < |es| ==> Recordable(es[i])
    ensures ParseLines(SaveLines(es)) == Some(es)
    decreases |es|
  {
    if es != [] {
      var init, last := es[..|es| - 1], es[|es| - 1];
      assert SaveLines(es) == SaveLines(init) + [SaveLine(last)];
      SaveThenParse(init);
      ParseSaveLine(last);
      ParseLinesAppend(SaveLines(init), SaveLine(last));
      TakeOneMore(es, |es| - 1);
    }
  }

  // ---------------------------------------------------------------------
  // Ordering, merging and truncating
  // ---------------------------------------------------------------------

  predicate SortedByTime(es: seq<Entry>) {
    forall i, j :: 0 <= i < j < |es| ==> es[i].time <= es[j].time
  }

  /** Insert e into a list sorted by time, before the first entry that is not faster. */
  function InsertByTime(es: seq<Entry>, e: Entry): (r: seq<Entry>)
    requires SortedByTime(es)
    ensures SortedByTime(r) && multiset(r) == multiset(es) + multiset{e}
    ensures r[0] == e || (es != [] && r[0] == es[0])
    decreases |es|
  {
    if es == [] then [e]
    else if e.time <= es[0].time then
      SortedCons(e, es);
      [e] + es
    else
      SortedTail(es);
      var rest := InsertByTime(es[1..], e);
      InsertBehind(es, e, rest);
      [es[0]] + rest
  }

  /** Dropping the head of a sorted list leaves it sorted. */
  lemma SortedTail(es: seq<Entry>)
    requires es != [] && SortedByTime(es)
    ensures SortedByTime(es[1..])
  {
    forall i, j | 0 <= i < j < |es| - 1
      ensures es[1..][i].time <= es[1..][j].time
    {
      assert es[1..][i] == es[i + 1] && es[1..][j] == es[j + 1];
    }
  }

  /** The recursive case of InsertByTime: the head stays in front of the insertion into the tail. */
  lemma InsertBehind(es: seq<Entry>, e: Entry, rest: seq<Entry>)
    requires es != [] && SortedByTime(es) && es[0].time < e.time
    requires SortedByTime(rest) && multiset(rest) == multiset(es[1..]) + multiset{e}
    requires rest[0] == e || (es[1..] != [] && rest[0] == es[1..][0])
    ensures SortedByTime([es[0]] + rest)
    ensures multiset([es[0]] + rest) == multiset(es) + multiset{e}
  {
    assert es == [es[0]] + es[1..];
    if rest[0] != e {
      assert rest[0] == es[1];
    }
    SortedCons(es[0], rest);
  }

  /** An entry no slower than the head of a sorted list can go in front of it. */
  lemma SortedCons(x: Entry, rest: seq<Entry>)
    requires SortedByTime(rest) && (rest != [] ==> x.time <= rest[0].time)
    ensures SortedByTime([x] + rest)
  {
    var s := [x] + rest;
    forall i, j | 0 <= i < j < |s|
      ensures s[i].time <= s[j].time
    {
      if i == 0 {
        assert s[j] == rest[j - 1];
      } else {
        assert s[i] == rest[i - 1] && s[j] == rest[j - 1];
      }
    }
  }

  /** The std::sort calls, comparing by time only. std::sort is not stable,
      so among entries of equal time any order is allowed; this model inserts
      one entry after another. */
  method SortByTime(es: seq<Entry>) returns (r: seq<Entry>)
    ensures SortedByTime(r) && multiset(r) == multiset(es)
  {
    r := [];
    var i := 0;
    while i < |es|
      invariant 0 <= i <= |es|
      invariant SortedByTime(r) && multiset(r) == multiset(es[..i])
    {
      assert es[..i + 1] == es[..i] + [es[i]];
      r := InsertByTime(r, es[i]);
      i := i + 1;
    }
    assert es[..|es|] == es;
  }

  /** The first position holding the name, or |es| when there is none: find_if. */
  function FindName(es: seq<Entry>, name: string): (i: nat)
    ensures i <= |es| && (i < |es| ==> es[i].name == name)
    ensures forall k :: 0 <= k < i ==> es[k].name != name
  {
    if es == [] then 0
    else if es[0].name == name then 0
    else 1 + FindName(es[1..], name)
  }

  /** The update step of addPlayerScore, before sorting: a known player's
      first entry takes the new time only when it is strictly faster; a new
      player is appended. */
  function Merged(es: seq<Entry>, name: string, t: int): seq<Entry> {
    var i := FindName(es, name);
    if i < |es| then
      if t < es[i].time then es[i := es[i].(time := t, formattedTime := FormatTime(t))] else es
    else es + [Entry(t, FormatTime(t), name)]
  }

  /** A known player's first entry ends with the faster of the two times and
      nothing else changes; a new player gets exactly one new entry. */
  lemma MergedEffect(es: seq<Entry>, name: string, t: int)
    ensures var m := Merged(es, name, t);
            var i := FindName(es, name);
            && (i < |es| ==>
                  && |m| == |es| && m[i].name == name
                  && m[i].time == (if t < es[i].time then t else es[i].time)
                  && m[i].time <= es[i].time
                  && forall k :: 0 <= k < |es| && k != i ==> m[k] == es[k])
            && (i == |es| ==> m == es + [Entry(t, FormatTime(t), name)] && name !in NamesOf(es))
  {
    var i := FindName(es, name);
    if i == |es| {
      assert forall k :: 0 <= k < |es| ==> es[k].name != name;
    }
  }

  function NamesOf(es: seq<Entry>): (ns: set<string>)
    ensures forall k :: 0 <= k < |es| ==> es[k].name in ns
    ensures forall n :: n in ns ==> exists k :: 0 <= k < |es| && es[k].name == n
  {
    set k | 0 <= k < |es| :: es[k].name
  }

  /** kept is sorted by time and holds the five fastest of all (all of them
      when there are five or fewer): nothing dropped is faster than anything kept. */
  ghost predicate Fastest(all: seq<Entry>, kept: seq<Entry>) {
    && SortedByTime(kept) && |kept| == (if |all| > 5 then 5 else |all|)
    && multiset(kept) <= multiset(all)
    && forall x :: x in multiset(all) - multiset(kept) ==>
         forall k :: 0 <= k < |kept| ==> kept[k].time <= x.time
  }

  /** The first n entries of a time-sorted list are at least as fast as every
      entry dropped. */
  lemma SortedPrefixFastest(es: seq<Entry>, n: nat)
    requires SortedByTime(es) && n == (if |es| > 5 then 5 else |es|)
    ensures Fastest(es, es[..n])
  {
    MultisetSplit(es, n);
    SortedPrefix(es, n);
    AllDroppedNoFaster(es, n);
  }

  /** A prefix of a time-sorted list is time-sorted. */
  lemma SortedPrefix(es: seq<Entry>, n: nat)
    requires SortedByTime(es) && n <= |es|
    ensures SortedByTime(es[..n])
  {
    forall i, j | 0 <= i < j < n
      ensures es[..n][i].time <= es[..n][j].time
    {
      assert es[..n][i] == es[i] && es[..n][j] == es[j];
    }
  }

  /** Everything a time-sorted list loses past position n is no faster than
      anything it keeps. */
  lemma AllDroppedNoFaster(es: seq<Entry>, n: nat)
    requires SortedByTime(es) && n <= |es|
    ensures forall x :: x in multiset(es) - multiset(es[..n]) ==>
              forall k :: 0 <= k < n ==> es[..n][k].time <= x.time
  {
    MultisetSplit(es, n);
    forall x | x in multiset(es[n..])
      ensures forall k :: 0 <= k < n ==> es[..n][k].time <= x.time
    {
      DroppedNoFaster(es, n, x);
    }
  }

  /** In a time-sorted list, an entry from position n on is no faster than
      any entry before n. */
  lemma DroppedNoFaster(es: seq<Entry>, n: nat, x: Entry)
    requires SortedByTime(es) && n <= |es| && x in multiset(es[n..])
    ensures forall k :: 0 <= k < n ==> es[..n][k].time <= x.time
  {
    var d :| 0 <= d < |es[n..]| && es[n..][d] == x;
    assert es[n + d] == x;
  }

  /** Cutting a list in two splits its multiset the same way. */
  lemma MultisetSplit(es: seq<Entry>, n: nat)
    requires n <= |es|
    ensures multiset(es) - multiset(es[..n]) == multiset(es[n..])
    ensures multiset(es[..n]) <= multiset(es)
  {
    assert es == es[..n] + es[n..];
  }

  // ---------------------------------------------------------------------
  // Rank lines
  // ---------------------------------------------------------------------

  /** Rank i's line without the marker: the decimal number i + 1, then
      ". MM:SS name" (no parentheses around the number). */
  function PlainRankLine(i: nat, e: Entry): string {
    IntToString(i + 1) + ". " + e.formattedTime + " " + e.name
  }

  /** The rank line of displayLeaderboard: " *" marks the entry whose name
      and time both match the current player. */
  function RankLine(i: nat, e: Entry, currentName: string, currentTime: int): string {
    PlainRankLine(i, e) + (if e.name == currentName && e.time == currentTime then " *" else "")
  }

  /** The marker is there exactly when name and time both match; the line
      begins with the rank in decimal followed by ". ". */
  lemma RankLineMarked(i: nat, e: Entry, currentName: string, currentTime: int)
    ensures var line := RankLine(i, e, currentName, currentTime);
            var plain := PlainRankLine(i, e);
            && (|line| == |plain| + 2 <==> e.name == currentName && e.time == currentTime)
            && line[..|plain|] == plain
            && AllDigits(IntToString(i + 1)) && DigitsValue(IntToString(i + 1)) == i + 1
            && line[|IntToString(i + 1)|] == '.'
  {
    IntToStringDigits(i + 1);
    var line := RankLine(i, e, currentName, currentTime);
    var plain := PlainRankLine(i, e);
    assert plain[|IntToString(i + 1)|] == '.';
    assert line[|IntToString(i + 1)|] == plain[|IntToString(i + 1)|];
  }

  // ---------------------------------------------------------------------
  // The window's entry list
  // ---------------------------------------------------------------------

  /** The entry list and the leaderboard file it reads and writes: None when
      the file cannot be opened, else its lines. */
  class LeaderboardWindow {
    var entries: seq<Entry>
    var file: Option<seq<string>>

    constructor (file: Option<seq<string>>)
      ensures entries == [] && this.file == file
    {
      entries, this.file := [], file;
    }

    /** loadLeaderboard: clear the list; with no file stop there; otherwise
        read every line in order and sort by time. ok is false when a line
        makes stoi or substr throw, which ends the program. */
    method Load() returns (ok: bool)
      modifies this`entries
      ensures file.None? ==> ok && entries == []
      ensures file.Some? ==> (ok <==> ParseLines(file.value).Some?)
      ensures file.Some? && ok ==>
                SortedByTime(entries) && multiset(entries) == multiset(ParseLines(file.value).value)
    {
      entries := [];
      if file.None? {
        return true;
      }
      ok := ReadLines(file.value);
      if ok {
        entries := SortByTime(entries);
      }
    }

    /** The getline loop of loadLeaderboard: one push_back per line, stopping
        at the first line that throws. */
    method ReadLines(lines: seq<string>) returns (ok: bool)
      requires entries == []
      modifies this`entries
      ensures ok <==> ParseLines(lines).Some?
      ensures ok ==> entries == ParseLines(lines).value
    {
      var es: seq<Entry> := [];
      var i := 0;
      while i < |lines|
        invariant 0 <= i <= |lines|
        invariant ParseLines(lines[..i]) == Some(es)
      {
        var e := ParseLine(lines[i]);
        ReadStep(lines, i, es);
        if e.None? {
          return false;
        }
        es := es + [e.value];
        i := i + 1;
      }
      TakeAll(lines);
      entries := es;
      return true;
    }

    /** saveLeaderboard: one formattedTime,name line per entry, in list order. */
    method Save()
      modifies this`file
      ensures file == Some(SaveLines(entries))
    {
      var lines: seq<string> := [];
      var i := 0;
      while i < |entries|
        invariant 0 <= i <= |entries| && lines == SaveLines(entries[..i])
      {
        assert entries[..i + 1][..i] == entries[..i];
        lines := lines + [SaveLine(entries[i])];
        i := i + 1;
      }
      assert entries[..|entries|] == entries;
      file := Some(lines);
    }

    /** find_if over the entries: the first position holding the name. */
    method FindPlayer(name: string) returns (i: nat)
      ensures i == FindName(entries, name)
    {
      i := 0;
      while i < |entries| && entries[i].name != name
        invariant 0 <= i <= |entries|
        invariant forall k :: 0 <= k < i ==> entries[k].name != name
      {
        i := i + 1;
      }
      FindNameIs(entries, name, i);
    }

    /** addPlayerScore: load the file, update or add the player, sort by time,
        keep the five fastest and save. `loaded` is the list as loaded and
        sorted; ok is false when loading throws. */
    method AddPlayerScore(playerName: string, totalSeconds: int) returns (ok: bool, ghost loaded: seq<Entry>)
      modifies this
      ensures old(file).None? ==> ok
      ensures old(file).Some? ==> (ok <==> ParseLines(old(file).value).Some?)
      ensures ok ==> SortedByTime(loaded)
      ensures ok && old(file).Some? ==> multiset(loaded) == multiset(ParseLines(old(file).value).value)
      ensures ok && old(file).None? ==> loaded == []
      ensures ok ==> Fastest(Merged(loaded, playerName, totalSeconds), entries)
      ensures ok ==> file == Some(SaveLines(entries))
    {
      ok := Load();
      loaded := entries;
      if !ok {
        return;
      }
      MergePlayer(playerName, totalSeconds);
      KeepFastest();
      Save();
    }

    /** The find_if and the update-or-append step of addPlayerScore. */
    method MergePlayer(playerName: string, totalSeconds: int)
      modifies this`entries
      ensures entries == Merged(old(entries), playerName, totalSeconds)
    {
      var formattedTime := FormatTime(totalSeconds);
      var i := FindPlayer(playerName);
      if i < |entries| {
        if totalSeconds < entries[i].time {
          entries := entries[i := entries[i].(time := totalSeconds, formattedTime := formattedTime)];
        }
      } else {
        entries := entries + [Entry(totalSeconds, formattedTime, playerName)];
      }
    }

    /** The sort by time and the resize to five of addPlayerScore. */
    method KeepFastest()
      modifies this`entries
      ensures Fastest(old(entries), entries)
    {
      var full := SortByTime(entries);
      assert |full| == |multiset(full)| == |entries|;
      entries := full;
      if |entries| > 5 {
        entries := entries[..5];
      }
      assert entries == full[..|entries|];
      SortedPrefixFastest(full, |entries|);
    }

    /** The rank lines of displayLeaderboard, one per entry in list order. */
    method DisplayLines(currentName: string, currentTime: int) returns (lines: seq<string>)
      ensures |lines| == |entries|
      ensures forall i :: 0 <= i < |entries| ==> lines[i] == RankLine(i, entries[i], currentName, currentTime)
    {
      lines := [];
      var i := 0;
      while i < |entries|
        invariant 0 <= i <= |entries| && |lines| == i
        invariant forall k :: 0 <= k < i ==> lines[k] == RankLine(k, entries[k], currentName, currentTime)
      {
        var line := IntToString(i + 1) + ". " + entries[i].formattedTime + " " + entries[i].name;
        if entries[i].name == currentName && entries[i].time == currentTime {
          line := line + " *";
        }
        lines := lines + [line];
        i := i + 1;
      }
    }
  }

  lemma {:induction false} FindNameIs(es: seq<Entry>, name: string, i: nat)
    requires i <= |es| && (i < |es| ==> es[i].name == name)
    requires forall k :: 0 <= k < i ==> es[k].name != name
    ensures FindName(es, name) == i
  {
    if i > 0 {
      FindNameIs(es[1..], name, i - 1);
    }
  }

  /** Once a line fails to parse, every longer prefix of the file fails too. */
  lemma {:induction false} NoParseAfter(lines: seq<string>, n: nat)
    requires n <= |lines| && ParseLines(lines[..n]).None?
    ensures ParseLines(lines).None?
    decreases |lines|
  {
    if n < |lines| {
      var init := lines[..|lines| - 1];
      assert init[..n] == lines[..n];
      NoParseAfter(init, n);
    } else {
      assert lines[..n] == lines;
    }
  }
}
