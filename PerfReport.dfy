/** The perf-stat report script: it reads `perf stat -x,` CSV output into an
    event map, derives ratios and misses-per-thousand-instructions, and draws
    a fixed list of conclusions from four threshold rules.

    File reading and line splitting are left to the caller (the model takes
    the lines), and Python's `float()` is the uninterpreted partial function
    `parse`.  Numbers are exact reals. */
module PerfReport {
  import opened Common

  // ---------------------------------------------------------------------
  // Python string helpers: str.isspace, str.strip, str.split(','), replace
  // ---------------------------------------------------------------------

  /** The characters Python's `str.isspace` accepts (and `str.strip` removes). */
  predicate IsSpace(c: char)
  {
    c == ' ' || '\t' <= c <= '\r' || '\U{1C}' <= c <= '\U{1F}'
    || c == '\U{85}' || c == '\U{A0}' || c == '\U{1680}'
    || '\U{2000}' <= c <= '\U{200A}' || c == '\U{2028}' || c == '\U{2029}'
    || c == '\U{202F}' || c == '\U{205F}' || c == '\U{3000}'
  }

  /** `str.lstrip()`: the result is a suffix of `s`, everything cut off is
      whitespace, and the result does not start with whitespace. */
  function LStrip(s: string): (r: string)
    ensures |r| <= |s| && r == s[|s| - |r|..]
    ensures r != [] ==> !IsSpace(r[0])
    ensures forall k :: 0 <= k < |s| - |r| ==> IsSpace(s[k])
    decreases |s|
  {
    if s != [] && IsSpace(s[0]) then LStrip(s[1..]) else s
  }

  /** `str.rstrip()`: the result is a prefix of `s`, everything cut off is
      whitespace, and the result does not end with whitespace. */
  function RStrip(s: string): (r: string)
    ensures |r| <= |s| && r == s[..|r|]
    ensures r != [] ==> !IsSpace(r[|r| - 1])
    ensures forall k :: |r| <= k < |s| ==> IsSpace(s[k])
    decreases |s|
  {
    if s != [] && IsSpace(s[|s| - 1]) then RStrip(s[..|s| - 1]) else s
  }

  /** `str.strip()`. */
  function Strip(s: string): string
  {
    RStrip(LStrip(s))
  }

  /** A stripped string is empty exactly when the original is all whitespace
      (Python's `not line.strip()`). */
  lemma StripBlank(s: string)
    ensures Strip(s) == [] <==> forall k :: 0 <= k < |s| ==> IsSpace(s[k])
  {
    var l := LStrip(s);
    var d := |s| - |l|;
    if Strip(s) == [] {
      forall k | 0 <= k < |s|
        ensures IsSpace(s[k])
      {
        if k >= d {
          assert s[k] == l[k - d];
        }
      }
    } else {
      assert l != [];
      assert s[d] == l[0];
    }
  }

  /** A stripped string only holds characters of the original. */
  lemma StripWithin(s: string)
    ensures forall c :: c in Strip(s) ==> c in s
  {
    var l := LStrip(s);
    var r := Strip(s);
    forall c | c in r
      ensures c in s
    {
      var k :| 0 <= k < |r| && r[k] == c;
      assert l[k] == c;
      assert s[|s| - |l| + k] == c;
    }
  }

  /** Number of occurrences of `c` in `s`. */
  function Count(s: string, c: char): nat
    decreases |s|
  {
    if s == [] then 0 else (if s[0] == c then 1 else 0) + Count(s[1..], c)
  }

  /** `s.split(sep)` with an explicit separator: one more field than there are
      separators, and no field contains the separator. */
  function Split(s: string, sep: char): (r: seq<string>)
    ensures |r| == Count(s, sep) + 1
    ensures forall k :: 0 <= k < |r| ==> sep !in r[k]
    decreases |s|
  {
    if s == [] then [""]
    else if s[0] == sep then [""] + Split(s[1..], sep)
    else
      var rest := Split(s[1..], sep);
      [[s[0]] + rest[0]] + rest[1..]
  }

  /** `sep.join(parts)`. */
  function Join(parts: seq<string>, sep: char): string
    requires parts != []
    decreases |parts|
  {
    if |parts| == 1 then parts[0] else parts[0] + [sep] + Join(parts[1..], sep)
  }

  lemma JoinConsHead(c: char, rest: seq<string>, sep: char)
    requires rest != []
    ensures Join([[c] + rest[0]] + rest[1..], sep) == [c] + Join(rest, sep)
  {
    var ps := [[c] + rest[0]] + rest[1..];
    assert ps[1..] == rest[1..];
  }

  /** Splitting loses nothing: joining the fields back gives the line. */
  lemma {:induction false} JoinSplit(s: string, sep: char)
    ensures Join(Split(s, sep), sep) == s
    decreases |s|
  {
    if s == [] {
    } else if s[0] == sep {
      JoinSplit(s[1..], sep);
      var ps := [""] + Split(s[1..], sep);
      assert ps[1..] == Split(s[1..], sep);
      assert s == [sep] + s[1..];
    } else {
      JoinSplit(s[1..], sep);
      JoinConsHead(s[0], Split(s[1..], sep), sep);
      assert s == [s[0]] + s[1..];
    }
  }

  /** `s.replace(c, '')`. */
  function Without(s: string, c: char): (r: string)
    ensures c !in r
    ensures c !in s ==> r == s
    decreases |s|
  {
    if s == [] then [] else (if s[0] == c then [] else [s[0]]) + Without(s[1..], c)
  }

  /** `[p.strip() for p in parts]`. */
  function StripAll(parts: seq<string>): (r: seq<string>)
    ensures |r| == |parts|
    ensures forall k :: 0 <= k < |r| ==> r[k] == Strip(parts[k])
  {
    seq(|parts|, k requires 0 <= k < |parts| => Strip(parts[k]))
  }

  // ---------------------------------------------------------------------
  // parse_perf_csv
  // ---------------------------------------------------------------------

  /** A parsed counter: the number and its (trimmed) unit. */
  datatype Reading = Reading(num: real, unit: string)

  /** What one CSV line contributes: an event name and its reading, or `None`
      for an unsupported, uncounted or unparsable value. */
  datatype Registration = Registration(event: string, reading: Option<Reading>)

  const NOT_SUPPORTED: string := "<not supported>"
  const NOT_COUNTED: string := "<not counted>"

  /** `re.match(r"^[0-9<]", t)`: an ASCII digit or `<` comes first. */
  predicate StartsMetric(t: string)
  {
    t != [] && ('0' <= t[0] <= '9' || t[0] == '<')
  }

  /** The effect of one line of the CSV, `None` when the line is skipped. */
  function LineEntry(line: string, parse: string -> Option<real>): Option<Registration>
  {
    var t := Strip(line);
    if t == [] || !StartsMetric(t) then None
    else
      var parts := StripAll(Split(line, ','));
      if |parts| < 3 then None
      else
        var value, unit, event := parts[0], parts[1], parts[2];
        if value == NOT_SUPPORTED || value == NOT_COUNTED then Some(Registration(event, None))
        else match parse(Without(value, ','))
          case None => Some(Registration(event, None))
          case Some(num) => Some(Registration(event, Some(Reading(num, unit))))
  }

  /** Whether a line's effect names event `e`. */
  predicate Names(reg: Option<Registration>, e: string)
  {
    reg.Some? && reg.value.event == e
  }

  /** One line's effect on the event map: the named event is (re)set. */
  function Apply(events: map<string, Option<Reading>>, reg: Option<Registration>): map<string, Option<Reading>>
  {
    match reg
    case None => events
    case Some(r) => events[r.event := r.reading]
  }

  /** The event map after applying the line effects in order. */
  function Fold(regs: seq<Option<Registration>>): map<string, Option<Reading>>
    decreases |regs|
  {
    if regs == [] then map[] else Apply(Fold(regs[..|regs| - 1]), regs[|regs| - 1])
  }

  lemma FoldPrefix(regs: seq<Option<Registration>>, i: nat)
    requires i < |regs|
    ensures Fold(regs[..i + 1]) == Apply(Fold(regs[..i]), regs[i])
  {
    assert regs[..i + 1][..i] == regs[..i];
  }

  function Entries(lines: seq<string>, parse: string -> Option<real>): (r: seq<Option<Registration>>)
    ensures |r| == |lines|
    ensures forall k :: 0 <= k < |r| ==> r[k] == LineEntry(lines[k], parse)
  {
    seq(|lines|, k requires 0 <= k < |lines| => LineEntry(lines[k], parse))
  }

  /** The event map after reading `lines` in order. */
  function Events(lines: seq<string>, parse: string -> Option<real>): map<string, Option<Reading>>
    decreases |lines|
  {
    if lines == [] then map[]
    else Apply(Events(lines[..|lines| - 1], parse), LineEntry(lines[|lines| - 1], parse))
  }

  lemma EventsPrefix(lines: seq<string>, parse: string -> Option<real>, i: nat)
    requires i < |lines|
    ensures Events(lines[..i + 1], parse) == Apply(Events(lines[..i], parse), LineEntry(lines[i], parse))
  {
    assert lines[..i + 1][..i] == lines[..i];
  }

  /** Reading the lines is folding their effects. */
  lemma {:induction false} EventsFold(lines: seq<string>, parse: string -> Option<real>)
    ensures Events(lines, parse) == Fold(Entries(lines, parse))
    decreases |lines|
  {
    if lines != [] {
      var n := |lines| - 1;
      EventsFold(lines[..n], parse);
      assert Entries(lines, parse)[..n] == Entries(lines[..n], parse);
    }
  }

  predicate Registers(line: string, parse: string -> Option<real>, e: string)
  {
    Names(LineEntry(line, parse), e)
  }

  /** `parse_perf_csv`: fills the event map line by line. */
  method ParsePerfCsv(lines: seq<string>, parse: string -> Option<real>)
    returns (events: map<string, Option<Reading>>)
    ensures events == Events(lines, parse)
  {
    events := map[];
    var i := 0;
    while i < |lines|
      invariant 0 <= i <= |lines|
      invariant events == Events(lines[..i], parse)
    {
      var line := lines[i];
      EventsPrefix(lines, parse, i);
      ghost var before := events;
      var t := Strip(line);
      if t != [] && StartsMetric(t) {
        var parts := StripAll(Split(line, ','));
        if |parts| >= 3 {
          var value, unit, event := parts[0], parts[1], parts[2];
          if value == NOT_SUPPORTED || value == NOT_COUNTED {
            events := events[event := None];
          } else {
            var num := parse(Without(value, ','));
            if num.Some? {
              events := events[event := Some(Reading(num.value, unit))];
            } else {
              events := events[event := None];
            }
          }
        }
      }
      assert events == Apply(before, LineEntry(line, parse));
      i := i + 1;
    }
    assert lines[..|lines|] == lines;
  }

  /** A line registers an event exactly when its stripped text starts with a
      digit or `<` and it has at least two commas (three fields); blank lines
      never do. */
  lemma LineRegisters(line: string, parse: string -> Option<real>)
    ensures LineEntry(line, parse).Some? <==> StartsMetric(Strip(line)) && Count(line, ',') >= 2
    ensures (forall k :: 0 <= k < |line| ==> IsSpace(line[k])) ==> LineEntry(line, parse) == None
  {
    StripBlank(line);
  }

  /** What a registering line stores: the third field names the event; the
      reading is `None` for the two sentinels and for a value `float()`
      rejects, and otherwise the parsed first field with the second field as
      unit.  Removing commas from the value first changes nothing, since a
      field never holds one. */
  lemma LineReading(line: string, parse: string -> Option<real>)
    requires LineEntry(line, parse).Some?
    ensures var fields := Split(line, ',');
            var value := Strip(fields[0]);
            var reg := LineEntry(line, parse).value;
            && reg.event == Strip(fields[2])
            && (reg.reading == None <==>
                  value == NOT_SUPPORTED || value == NOT_COUNTED || parse(value) == None)
            && (reg.reading.Some? ==>
                  reg.reading.value == Reading(parse(value).value, Strip(fields[1])))
  {
    var fields := Split(line, ',');
    StripWithin(fields[0]);
    assert ',' !in fields[0];
    assert Without(Strip(fields[0]), ',') == Strip(fields[0]);
  }

  lemma {:induction false} FoldDomain(regs: seq<Option<Registration>>, e: string)
    ensures e in Fold(regs) <==> exists i :: 0 <= i < |regs| && Names(regs[i], e)
    decreases |regs|
  {
    if regs != [] {
      var n := |regs| - 1;
      var pre := regs[..n];
      FoldDomain(pre, e);
      if e in Fold(regs) && !Names(regs[n], e) {
        var i :| 0 <= i < |pre| && Names(pre[i], e);
        assert regs[i] == pre[i];
      }
      if exists i :: 0 <= i < |regs| && Names(regs[i], e) {
        var i :| 0 <= i < |regs| && Names(regs[i], e);
        if i < n {
          assert pre[i] == regs[i];
        }
      }
    }
  }

  lemma {:induction false} FoldLast(regs: seq<Option<Registration>>, e: string, i: nat)
    requires i < |regs| && Names(regs[i], e)
    requires forall j :: i < j < |regs| ==> !Names(regs[j], e)
    ensures e in Fold(regs) && Fold(regs)[e] == regs[i].value.reading
    decreases |regs|
  {
    var n := |regs| - 1;
    if i < n {
      var pre := regs[..n];
      assert pre[i] == regs[i];
      forall j | i < j < |pre|
        ensures !Names(pre[j], e)
      {
        assert pre[j] == regs[j];
      }
      FoldLast(pre, e, i);
    }
  }

  /** An event is in the map exactly when some line registers it. */
  lemma EventsDomain(lines: seq<string>, parse: string -> Option<real>, e: string)
    ensures e in Events(lines, parse) <==>
            exists i :: 0 <= i < |lines| && Registers(lines[i], parse, e)
  {
    var regs := Entries(lines, parse);
    EventsFold(lines, parse);
    FoldDomain(regs, e);
    if exists i :: 0 <= i < |regs| && Names(regs[i], e) {
      var i :| 0 <= i < |regs| && Names(regs[i], e);
      assert Registers(lines[i], parse, e);
    }
    if exists i :: 0 <= i < |lines| && Registers(lines[i], parse, e) {
      var i :| 0 <= i < |lines| && Registers(lines[i], parse, e);
      assert Names(regs[i], e);
    }
  }

  /** When an event name repeats, the last line that names it decides its entry. */
  lemma LastLineWins(lines: seq<string>, parse: string -> Option<real>, e: string, i: nat)
    requires i < |lines| && Registers(lines[i], parse, e)
    requires forall j :: i < j < |lines| ==> !Registers(lines[j], parse, e)
    ensures e in Events(lines, parse)
    ensures Events(lines, parse)[e] == LineEntry(lines[i], parse).value.reading
  {
    var regs := Entries(lines, parse);
    EventsFold(lines, parse);
    forall j | i < j < |regs|
      ensures !Names(regs[j], e)
    {
      assert !Registers(lines[j], parse, e);
    }
    FoldLast(regs, e, i);
  }

  // ---------------------------------------------------------------------
  // get_value, ratio, mpki
  // ---------------------------------------------------------------------

  /** `get_value`: the number of an event that is present and not `None`. */
  function GetValue(events: map<string, Option<Reading>>, key: string): (r: Option<real>)
    ensures r.Some? <==> key in events && events[key].Some?
    ensures r.Some? ==> r.value == events[key].value.num
  {
    if key in events && events[key].Some? then Some(events[key].value.num) else None
  }

  /** The value `get_value` reads back from parsed lines is the number of the
      last line naming the event, and there is none when no line names it or
      the last one holds no number. */
  lemma ValueOfLastLine(lines: seq<string>, parse: string -> Option<real>, e: string, i: nat)
    requires i < |lines| && Registers(lines[i], parse, e)
    requires forall j :: i < j < |lines| ==> !Registers(lines[j], parse, e)
    ensures var reading := LineEntry(lines[i], parse).value.reading;
            GetValue(Events(lines, parse), e) == if reading.Some? then Some(reading.value.num) else None
  {
    LastLineWins(lines, parse, e, i);
  }

  /** `ratio`: unavailable when either side is, or the denominator is 0;
      otherwise the quotient, the number that times the denominator gives the
      numerator. */
  function Ratio(numerator: Option<real>, denominator: Option<real>): (r: Option<real>)
    ensures r.Some? <==> numerator.Some? && denominator.Some? && denominator.value != 0.0
    ensures r.Some? ==> r.value * denominator.value == numerator.value
  {
    if numerator.None? || denominator.None? || denominator.value == 0.0 then None
    else Some(numerator.value / denominator.value)
  }

  /** `mpki`: misses per thousand instructions, with the same rule for
      unavailable inputs. */
  function Mpki(misses: Option<real>, instructions: Option<real>): (r: Option<real>)
    ensures r.Some? <==> misses.Some? && instructions.Some? && instructions.value != 0.0
    ensures r.Some? ==> r.value * instructions.value == 1000.0 * misses.value
  {
    if misses.None? || instructions.None? || instructions.value == 0.0 then None
    else Some(1000.0 * misses.value / instructions.value)
  }

  lemma MpkiExample()
    ensures Mpki(Some(5.0), Some(1000.0)) == Some(5.0)
    ensures Mpki(Some(5.0), Some(0.0)) == None
    ensures Mpki(None, Some(1000.0)) == None
  {
  }

  // ---------------------------------------------------------------------
  // Conclusions
  // ---------------------------------------------------------------------

  /** The report's conclusions, in the order the rules are tried; the last is
      the fallback. */
  datatype Conclusion = LowIpc | HighBranchMissRate | HighL1dMpki | HighLlcMpki | NoAnomaly

  function Rank(c: Conclusion): nat
  {
    match c
    case LowIpc => 0
    case HighBranchMissRate => 1
    case HighL1dMpki => 2
    case HighLlcMpki => 3
    case NoAnomaly => 4
  }

  const INSTRUCTIONS: string := "instructions"
  const CYCLES: string := "cycles"
  const BRANCHES: string := "branches"
  const BRANCH_MISSES: string := "branch-misses"
  const L1D_MISSES: string := "L1-dcache-load-misses"
  const LLC_MISSES: string := "LLC-load-misses"

  /** A rule fires when every number it needs is available and its quotient
      crosses the threshold: IPC below 1, branch-miss rate above 3%, L1D
      misses per thousand instructions above 5, LLC above 1. */
  predicate RuleFires(c: Conclusion, events: map<string, Option<Reading>>)
  {
    var instr := GetValue(events, INSTRUCTIONS);
    match c
    case LowIpc =>
      var cycles := GetValue(events, CYCLES);
      instr.Some? && cycles.Some? && cycles.value != 0.0 && instr.value / cycles.value < 1.0
    case HighBranchMissRate =>
      var br := GetValue(events, BRANCHES);
      var miss := GetValue(events, BRANCH_MISSES);
      br.Some? && miss.Some? && br.value != 0.0 && miss.value / br.value > 0.03
    case HighL1dMpki =>
      var miss := GetValue(events, L1D_MISSES);
      instr.Some? && miss.Some? && instr.value != 0.0 && 1000.0 * miss.value / instr.value > 5.0
    case HighLlcMpki =>
      var miss := GetValue(events, LLC_MISSES);
      instr.Some? && miss.Some? && instr.value != 0.0 && 1000.0 * miss.value / instr.value > 1.0
    case NoAnomaly => false
  }

  /** A conclusion is drawn when its rule fires; the fallback when none does. */
  predicate Concluded(c: Conclusion, events: map<string, Option<Reading>>)
  {
    if c == NoAnomaly then
      !RuleFires(LowIpc, events) && !RuleFires(HighBranchMissRate, events)
      && !RuleFires(HighL1dMpki, events) && !RuleFires(HighLlcMpki, events)
    else RuleFires(c, events)
  }

  /** The conclusion rules of the report: each rule is tried in turn and
      appends its conclusion when it fires; the fallback is appended only when
      none did. */
  method Conclude(events: map<string, Option<Reading>>) returns (conclusions: seq<Conclusion>)
    ensures conclusions != []
    ensures forall c :: c in conclusions <==> Concluded(c, events)
    ensures forall i, j :: 0 <= i < j < |conclusions| ==> Rank(conclusions[i]) < Rank(conclusions[j])
  {
    var instructions := GetValue(events, INSTRUCTIONS);
    var cycles := GetValue(events, CYCLES);
    var branches := GetValue(events, BRANCHES);
    var branchMisses := GetValue(events, BRANCH_MISSES);
    var l1dMiss := GetValue(events, L1D_MISSES);
    var llcMiss := GetValue(events, LLC_MISSES);
    var ipc := Ratio(instructions, cycles);
    var brMissRate := Ratio(branchMisses, branches);

    conclusions := [];
    if ipc.Some? && ipc.value < 1.0 {
      conclusions := conclusions + [LowIpc];
    }
    if brMissRate.Some? && brMissRate.value > 0.03 {
      conclusions := conclusions + [HighBranchMissRate];
    }
    if l1dMiss.Some? && instructions.Some? {
      var l1dMpki := Mpki(l1dMiss, instructions);
      if l1dMpki.Some? && l1dMpki.value > 5.0 {
        conclusions := conclusions + [HighL1dMpki];
      }
    }
    if llcMiss.Some? && instructions.Some? {
      var llcMpki := Mpki(llcMiss, instructions);
      if llcMpki.Some? && llcMpki.value > 1.0 {
        conclusions := conclusions + [HighLlcMpki];
      }
    }
    if conclusions == [] {
      conclusions := conclusions + [NoAnomaly];
    }
  }
}
