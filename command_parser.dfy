/**
 * The command parser (Command_Parser.c). A line is tried against three POSIX
 * extended regular expressions in a fixed order; the first that matches
 * decides the kind of the request, and its submatches give the id, the
 * period and the message.
 *
 * The library matcher is replaced here by `MatchAt`/`Regexec`, a matcher
 * written for these three grammars, and `Matches`, a direct transcription of
 * the regular expressions, ties the two together: `Regexec` finds the
 * leftmost and then longest match, as POSIX regexec does.
 *
 * A string here is the text of a C string, the characters before its NUL.
 * The patterns are compiled without REG_NEWLINE, so `.` matches every such
 * character, a newline included.
 */
module CommandParser {
  import opened Wrappers
  import opened Types

  /** A character of the class [[:space:]] in the C locale. */
  predicate IsSpace(c: char)
  {
    c == ' ' || c == '\t' || c == '\n' || c == '\U{0B}' || c == '\U{0C}' || c == '\r'
  }

  /** A character of the bracket expression [0-9]. */
  predicate IsDigit(c: char)
  {
    '0' <= c <= '9'
  }

  predicate IsDigits(s: string)
  {
    forall i :: 0 <= i < |s| ==> IsDigit(s[i])
  }

  /** A submatch as regexec reports it: the half-open range [so, eo) of the line. */
  datatype Span = Span(so: nat, eo: nat)

  /**
   * One of the three grammars. With a period it reads: the keyword, "(", a
   * digit run, "):", one space character, a digit run, one space character,
   * and any text (four submatches, the whole match included). Without one:
   * the keyword, "(", a digit run, ")" (two submatches).
   */
  datatype Pattern = Pattern(keyword: string, withPeriod: bool)

  /** An entry of the table of grammars: the kind it produces and its submatch count. */
  datatype RegexParser = RegexParser(kind: RequestType, pattern: Pattern, expectedMatches: nat)

  /** The table, in the order the grammars are tried. */
  const Regexes: seq<RegexParser> := [
    RegexParser(StartAlarm, Pattern("Start_Alarm", true), 4),
    RegexParser(ChangeAlarm, Pattern("Change_Alarm", true), 4),
    RegexParser(CancelAlarm, Pattern("Cancel_Alarm", false), 2)
  ]

  /** Size of the local buffers that hold a digit run before it is converted. */
  const DigitBufferSize: nat := 64

  /** Every span lies inside the line and there is one per submatch. */
  predicate SpansWithin(pat: Pattern, line: string, m: seq<Span>)
  {
    |m| == (if pat.withPeriod then 4 else 2) &&
    forall k :: 0 <= k < |m| ==> m[k].so <= m[k].eo <= |line|
  }

  // ---------------------------------------------------------------------------
  // The regular expressions, read declaratively
  // ---------------------------------------------------------------------------

  /**
   * The grammar `pat` matches line[p..q] with submatches `m`. Each atom of the
   * regular expression is one conjunct; `.*` matches whatever lies between the
   * second space and q.
   */
  ghost predicate Matches(pat: Pattern, line: string, p: nat, q: nat, m: seq<Span>)
  {
    var open := p + |pat.keyword| + 1;
    q <= |line| && |m| == (if pat.withPeriod then 4 else 2) &&
    m[0] == Span(p, q) &&
    m[1].so == open && open < m[1].eo < |line| &&
    line[p..open] == pat.keyword + "(" &&
    IsDigits(line[open..m[1].eo]) && line[m[1].eo] == ')' &&
    if !pat.withPeriod then
      q == m[1].eo + 1
    else
      m[2].so == m[1].eo + 3 && m[2].so < m[2].eo < q &&
      line[m[1].eo + 1] == ':' && IsSpace(line[m[1].eo + 2]) &&
      IsDigits(line[m[2].so..m[2].eo]) && IsSpace(line[m[2].eo]) &&
      m[3] == Span(m[2].eo + 1, q)
  }

  // ---------------------------------------------------------------------------
  // The matcher
  // ---------------------------------------------------------------------------

  /** The end of the longest digit run that starts at i. */
  function DigitRunEnd(s: string, i: nat): (e: nat)
    requires i <= |s|
    ensures i <= e <= |s|
    ensures IsDigits(s[i..e])
    ensures e == |s| || !IsDigit(s[e])
    decreases |s| - i
  {
    if i < |s| && IsDigit(s[i]) then
      var e := DigitRunEnd(s, i + 1);
      assert forall k :: 0 <= k < e - i ==> s[i..e][k] == s[i + k];
      e
    else
      i
  }

  /**
   * The match of `pat` that starts at p, if there is one. Each digit run must
   * be followed by a fixed non-digit, so it is the longest run; the final
   * `.*` runs to the end of the line, so the match is the longest one.
   */
  function MatchAt(pat: Pattern, line: string, p: nat): (r: Option<seq<Span>>)
    ensures r.Some? ==> SpansWithin(pat, line, r.value) && r.value[0].so == p
  {
    var open := p + |pat.keyword| + 1;
    if open > |line| || line[p..open] != pat.keyword + "(" then None
    else
      var idEnd := DigitRunEnd(line, open);
      if idEnd == open || idEnd == |line| || line[idEnd] != ')' then None
      else if !pat.withPeriod then Some([Span(p, idEnd + 1), Span(open, idEnd)])
      else if idEnd + 3 > |line| || line[idEnd + 1] != ':' || !IsSpace(line[idEnd + 2]) then None
      else
        var timeEnd := DigitRunEnd(line, idEnd + 3);
        if timeEnd == idEnd + 3 || timeEnd == |line| || !IsSpace(line[timeEnd]) then None
        else Some([Span(p, |line|), Span(open, idEnd), Span(idEnd + 3, timeEnd), Span(timeEnd + 1, |line|)])
  }

  /** The first match that starts at or after i. */
  function SearchFrom(pat: Pattern, line: string, i: nat): (r: Option<seq<Span>>)
    ensures r.Some? ==>
              SpansWithin(pat, line, r.value) && i <= r.value[0].so &&
              MatchAt(pat, line, r.value[0].so) == r &&
              forall p :: i <= p < r.value[0].so ==> MatchAt(pat, line, p).None?
    ensures r.None? ==> forall p :: i <= p <= |line| ==> MatchAt(pat, line, p).None?
    decreases |line| + 1 - i
  {
    if i > |line| then None
    else match MatchAt(pat, line, i)
      case Some(m) => Some(m)
      case None => SearchFrom(pat, line, i + 1)
  }

  /** Unanchored matching of a grammar against a line, as regexec does it. */
  function Regexec(pat: Pattern, line: string): (r: Option<seq<Span>>)
    ensures r.Some? ==> SpansWithin(pat, line, r.value)
  {
    SearchFrom(pat, line, 0)
  }

  // ---------------------------------------------------------------------------
  // The matcher agrees with the regular expressions
  // ---------------------------------------------------------------------------

  /** A digit run that ends at a non-digit is the longest one. */
  lemma {:induction false} DigitRunIsForced(s: string, i: nat, e: nat)
    requires i <= e <= |s| && IsDigits(s[i..e]) && (e == |s| || !IsDigit(s[e]))
    ensures DigitRunEnd(s, i) == e
    decreases e - i
  {
    if i < e {
      assert s[i..e][0] == s[i];
      assert s[i + 1..e] == s[i..e][1..];
      DigitRunIsForced(s, i + 1, e);
    }
  }

  /** What MatchAt finds is a match of the regular expression. */
  lemma MatchAtSound(pat: Pattern, line: string, p: nat)
    requires MatchAt(pat, line, p).Some?
    ensures Matches(pat, line, p, MatchAt(pat, line, p).value[0].eo, MatchAt(pat, line, p).value)
  {
  }

  /**
   * Every match of the regular expression that starts at p is found by
   * MatchAt or is a shorter one: MatchAt returns the longest match at p, and
   * the submatches of a match of that length are determined.
   */
  lemma MatchAtComplete(pat: Pattern, line: string, p: nat, q: nat, m: seq<Span>)
    requires Matches(pat, line, p, q, m)
    ensures MatchAt(pat, line, p).Some?
    ensures q <= MatchAt(pat, line, p).value[0].eo
    ensures q == MatchAt(pat, line, p).value[0].eo ==> m == MatchAt(pat, line, p).value
    ensures pat.withPeriod ==> MatchAt(pat, line, p).value[0].eo == |line|
    ensures !pat.withPeriod ==> q == MatchAt(pat, line, p).value[0].eo
  {
    var open := p + |pat.keyword| + 1;
    DigitRunIsForced(line, open, m[1].eo);
    if pat.withPeriod {
      DigitRunIsForced(line, m[2].so, m[2].eo);
    }
  }

  /**
   * Regexec reports "no match" exactly when the regular expression matches no
   * part of the line; otherwise it reports the leftmost match, the longest
   * among those that start there, and its submatches.
   */
  lemma RegexecIsLeftmostLongest(pat: Pattern, line: string)
    ensures Regexec(pat, line).None? <==> forall p: nat, q: nat, m: seq<Span> :: !Matches(pat, line, p, q, m)
    ensures Regexec(pat, line).Some? ==>
              var r := Regexec(pat, line).value;
              Matches(pat, line, r[0].so, r[0].eo, r) &&
              forall p: nat, q: nat, m: seq<Span> :: Matches(pat, line, p, q, m) ==>
                r[0].so < p || (r[0].so == p && (q < r[0].eo || (q == r[0].eo && m == r)))
  {
    var res := Regexec(pat, line);
    forall p: nat, q: nat, m: seq<Span> | Matches(pat, line, p, q, m)
      ensures res.Some?
      ensures res.Some? ==>
                res.value[0].so < p ||
                (res.value[0].so == p && (q < res.value[0].eo || (q == res.value[0].eo && m == res.value)))
    {
      MatchAtComplete(pat, line, p, q, m);
    }
    if res.Some? {
      MatchAtSound(pat, line, res.value[0].so);
    }
  }

  /** A grammar whose keyword has a character the line lacks matches nowhere in it. */
  lemma NoMatchWithoutKeyword(pat: Pattern, line: string, c: char)
    requires c in pat.keyword && c !in line
    ensures Regexec(pat, line).None?
  {
    var k :| 0 <= k < |pat.keyword| && pat.keyword[k] == c;
    forall p: nat | p <= |line|
      ensures MatchAt(pat, line, p).None?
    {
      var open := p + |pat.keyword| + 1;
      if open <= |line| {
        assert line[p..open][k] == line[p + k];
        assert (pat.keyword + "(")[k] == c;
      }
    }
  }

  /** No match starts at a position whose character is not the keyword's first. */
  lemma NoMatchStartsIn(pat: Pattern, line: string, lo: nat, hi: nat)
    requires pat.keyword != [] && lo <= hi <= |line| && pat.keyword[0] !in line[lo..hi]
    ensures forall p :: lo <= p < hi ==> MatchAt(pat, line, p).None?
  {
    forall p | lo <= p < hi
      ensures MatchAt(pat, line, p).None?
    {
      var open := p + |pat.keyword| + 1;
      assert line[lo..hi][p - lo] == line[p];
      if open <= |line| {
        assert line[p..open][0] == line[p];
        assert (pat.keyword + "(")[0] == pat.keyword[0];
      }
    }
  }

  /** With no match before P, the search from i finds the match at P. */
  lemma {:induction false} SearchFindsFirst(pat: Pattern, line: string, i: nat, pos: nat)
    requires i <= pos && MatchAt(pat, line, pos).Some?
    requires forall p :: i <= p < pos ==> MatchAt(pat, line, p).None?
    ensures SearchFrom(pat, line, i) == MatchAt(pat, line, pos)
    decreases pos - i
  {
    if i < pos {
      SearchFindsFirst(pat, line, i + 1, pos);
    }
  }

  // ---------------------------------------------------------------------------
  // Converting a digit run
  // ---------------------------------------------------------------------------

  /** The decimal value of a digit run, which is what atoi gives for it. */
  function DecimalValue(s: string): (n: nat)
    requires IsDigits(s)
  {
    if s == [] then 0 else 10 * DecimalValue(s[..|s| - 1]) + (s[|s| - 1] as int - '0' as int)
  }

  function Pow10(n: nat): (r: nat)
    ensures r >= 1
  {
    if n == 0 then 1 else 10 * Pow10(n - 1)
  }

  /** A run of n digits has a value below 10^n. */
  lemma {:induction false} DecimalValueBound(s: string)
    requires IsDigits(s)
    ensures DecimalValue(s) < Pow10(|s|)
  {
    if s != [] {
      DecimalValueBound(s[..|s| - 1]);
    }
  }

  /** So a run of at most nine digits always fits in an int. */
  lemma NineDigitsFit(s: string)
    requires IsDigits(s) && |s| <= 9
    ensures DecimalValue(s) <= IntMax
  {
    DecimalValueBound(s);
    PowMonotone(|s|, 9);
  }

  lemma {:induction false} PowMonotone(a: nat, b: nat)
    requires a <= b
    ensures Pow10(a) <= Pow10(b)
    decreases b - a
  {
    if a < b {
      PowMonotone(a + 1, b);
    }
  }

  /** atoi of a buffer that starts with digits: the value of its leading digit run. */
  function LeadingDigitsValue(buf: string): nat
  {
    DecimalValue(buf[..DigitRunEnd(buf, 0)])
  }

  /**
   * The id and period buffers as written: strncpy copies exactly the digits
   * over the buffer's earlier content `prior` and adds no terminator, so atoi
   * also reads any digits left behind after them.
   */
  function AtoiUnterminated(prior: string, digits: string): nat
    requires |prior| == DigitBufferSize && |digits| < DigitBufferSize && IsDigits(digits)
  {
    LeadingDigitsValue(digits + prior[|digits|..])
  }

  /** A buffer that held "12" before the digit run "3" is copied over it gives 32, not 3. */
  lemma StaleDigitCounterexample()
    ensures AtoiUnterminated("12" + seq(62, _ => '\0'), "3") == 32
    ensures DecimalValue("3") == 3
  {
    var buf := "3" + ("12" + seq(62, _ => '\0'))[1..];
    assert buf[..3] == "32\0";
    DigitRunIsForced(buf, 0, 2);
    assert buf[..2] == "32";
    assert "32"[..1] == "3";
  }

  /** The as-written conversion is right whenever the byte after the copied digits is no digit. */
  lemma AtoiUnterminatedCorrectWhen(prior: string, digits: string)
    requires |prior| == DigitBufferSize && |digits| < DigitBufferSize && IsDigits(digits)
    requires !IsDigit(prior[|digits|])
    ensures AtoiUnterminated(prior, digits) == DecimalValue(digits)
  {
    var buf := digits + prior[|digits|..];
    assert buf[..|digits|] == digits;
    DigitRunIsForced(buf, 0, |digits|);
  }

  /**
   * The conversion as intended: the digits are copied and then terminated, so
   * whatever the buffer held before, atoi reads exactly the digit run.
   */
  function AtoiTerminated(prior: string, digits: string): (n: nat)
    requires |prior| == DigitBufferSize && |digits| < DigitBufferSize && IsDigits(digits)
    ensures n == DecimalValue(digits)
  {
    var buf := digits + ['\0'] + prior[|digits| + 1..];
    assert buf[..|digits|] == digits;
    DigitRunIsForced(buf, 0, |digits|);
    LeadingDigitsValue(buf)
  }

  // ---------------------------------------------------------------------------
  // Building the request
  // ---------------------------------------------------------------------------

  function Text(line: string, sp: Span): string
    requires sp.so <= sp.eo <= |line|
  {
    line[sp.so..sp.eo]
  }

  /** A digit submatch that fits the 64-byte buffer and whose value fits an int. */
  predicate NumberFits(line: string, sp: Span)
  {
    sp.so <= sp.eo <= |line| && IsDigits(Text(line, sp)) &&
    |Text(line, sp)| < DigitBufferSize && DecimalValue(Text(line, sp)) <= IntMax
  }

  /**
   * The submatches the entry uses fit the buffers the code copies them into:
   * each digit run fits its buffer and an int, and the message leaves room
   * for its terminator in the 128-byte array.
   */
  predicate FieldsFit(e: RegexParser, line: string, m: seq<Span>)
  {
    |m| >= e.expectedMatches &&
    (e.expectedMatches > 1 ==> NumberFits(line, m[1])) &&
    (e.expectedMatches > 2 ==> NumberFits(line, m[2])) &&
    (e.expectedMatches > 3 ==> m[3].so <= m[3].eo <= |line| && m[3].eo - m[3].so < MaximumMessageSize)
  }

  /** The request filled in from the submatches of the entry that matched. */
  function Build(e: RegexParser, line: string, m: seq<Span>): AlarmRequest
    requires FieldsFit(e, line, m)
  {
    AlarmRequest(
      if e.expectedMatches > 1 then DecimalValue(Text(line, m[1])) else 0,
      e.kind,
      if e.expectedMatches > 2 then DecimalValue(Text(line, m[2])) else 0,
      if e.expectedMatches > 3 then Text(line, m[3]) else "")
  }

  /** The first entry of the table, from i on, whose grammar matches the line. */
  function FirstMatch(line: string, i: nat): (r: Option<(nat, seq<Span>)>)
    requires i <= |Regexes|
    ensures r.None? ==> forall j :: i <= j < |Regexes| ==> Regexec(Regexes[j].pattern, line).None?
    ensures r.Some? ==>
              i <= r.value.0 < |Regexes| &&
              Regexec(Regexes[r.value.0].pattern, line) == Some(r.value.1) &&
              forall j :: i <= j < r.value.0 ==> Regexec(Regexes[j].pattern, line).None?
    decreases |Regexes| - i
  {
    if i == |Regexes| then None
    else
      var res := Regexec(Regexes[i].pattern, line);
      if res.Some? then Some((i, res.value)) else FirstMatch(line, i + 1)
  }

  /**
   * The lines on which the conversions are defined: if some grammar matches,
   * the submatches of the first one fit their buffers (see FieldsFit).
   */
  predicate Representable(line: string)
  {
    match FirstMatch(line, 0)
    case None => true
    case Some((i, m)) => FieldsFit(Regexes[i], line, m)
  }

  /** The request a line stands for, or None when no grammar matches it. */
  function Parse(line: string): (r: Option<AlarmRequest>)
    requires Representable(line)
    ensures r.Some? ==> r.value.alarmId >= 0 && r.value.time >= 0
    ensures r.Some? && r.value.kind == CancelAlarm ==> r.value.time == 0 && r.value.message == ""
  {
    match FirstMatch(line, 0)
    case None => None
    case Some((i, m)) => Some(Build(Regexes[i], line, m))
  }

  /**
   * parse_request: the loop over the table of grammars. A grammar that does
   * not match moves on to the next; the first that matches fills in the
   * request field by field from its submatches and returns it.
   */
  method ParseRequest(input: string) returns (r: Option<AlarmRequest>)
    requires Representable(input)
    ensures r == Parse(input)
  {
    for i := 0 to |Regexes|
      invariant FirstMatch(input, i) == FirstMatch(input, 0)
    {
      var entry := Regexes[i];
      var status := Regexec(entry.pattern, input);
      if status.None? {
        continue;
      }
      var matches := status.value;
      assert FieldsFit(entry, input, matches) && Parse(input) == Some(Build(entry, input, matches)) by {
        assert FirstMatch(input, 0) == Some((i, matches));
      }
      var alarmId: Int32, time: Int32, message: Message;
      if entry.expectedMatches > 1 {
        alarmId := DecimalValue(Text(input, matches[1]));
      } else {
        alarmId := 0;
      }
      if entry.expectedMatches > 2 {
        time := DecimalValue(Text(input, matches[2]));
      } else {
        time := 0;
      }
      if entry.expectedMatches > 3 {
        message := Text(input, matches[3]);
      } else {
        message := "";
      }
      return Some(AlarmRequest(alarmId, entry.kind, time, message));
    }
    return None;
  }

  // ---------------------------------------------------------------------------
  // Properties of the parser
  // ---------------------------------------------------------------------------

  /** The table holds the kinds in declaration order, and each keyword is its kind's name. */
  lemma TableMatchesTypeNames()
    ensures |Regexes| == |EnumNames|
    ensures forall i :: 0 <= i < |Regexes| ==> Ordinal(Regexes[i].kind) == i
    ensures forall i :: 0 <= i < |Regexes| ==> Regexes[i].pattern.keyword == EnumNames[i]
    ensures forall i :: 0 <= i < |Regexes| ==>
              (Regexes[i].pattern.withPeriod <==> i < 2) &&
              Regexes[i].expectedMatches == (if i < 2 then 4 else 2)
  {
  }

  /** The name of a request's kind is the keyword of the grammar that produces that kind. */
  lemma KeywordIsTypeName(r: AlarmRequest)
    ensures Regexes[Ordinal(r.kind)].kind == r.kind
    ensures Regexes[Ordinal(r.kind)].pattern.keyword == RequestTypeString(r)
  {
    TableMatchesTypeNames();
  }

  /** No request comes back exactly when none of the three grammars matches any part of the line. */
  lemma ParseNoneIffNoGrammarMatches(line: string)
    requires Representable(line)
    ensures Parse(line).None? <==>
              forall i: nat, p: nat, q: nat, m: seq<Span> ::
                i < |Regexes| ==> !Matches(Regexes[i].pattern, line, p, q, m)
  {
    forall i: nat | i < |Regexes|
      ensures Regexec(Regexes[i].pattern, line).None? <==>
                forall p: nat, q: nat, m: seq<Span> :: !Matches(Regexes[i].pattern, line, p, q, m)
    {
      RegexecIsLeftmostLongest(Regexes[i].pattern, line);
    }
  }

  /** The grammars are tried in the order Start, Change, Cancel; the first that matches gives the kind. */
  lemma ParseFollowsTableOrder(line: string)
    requires Representable(line)
    ensures (Parse(line).Some? && Parse(line).value.kind == StartAlarm) <==>
              Regexec(Regexes[0].pattern, line).Some?
    ensures (Parse(line).Some? && Parse(line).value.kind == ChangeAlarm) <==>
              Regexec(Regexes[0].pattern, line).None? && Regexec(Regexes[1].pattern, line).Some?
    ensures (Parse(line).Some? && Parse(line).value.kind == CancelAlarm) <==>
              Regexec(Regexes[0].pattern, line).None? && Regexec(Regexes[1].pattern, line).None? &&
              Regexec(Regexes[2].pattern, line).Some?
  {
    var f := FirstMatch(line, 0);
    if f.Some? {
      assert f.value.0 == 0 || f.value.0 == 1 || f.value.0 == 2;
    }
  }

  /**
   * The fields of r come from the submatches m of a match in the line: the
   * id from the digits in the parentheses; for Start and Change, exactly `):`
   * and one whitespace character, the period from the digit run that follows,
   * one whitespace character, and the message from there to the end of the
   * line; a Cancel has period 0 and an empty message.
   */
  predicate ExtractedFrom(r: AlarmRequest, line: string, m: seq<Span>)
  {
    |m| >= 2 && m[1].so <= m[1].eo <= |line| &&
    IsDigits(Text(line, m[1])) && r.alarmId == DecimalValue(Text(line, m[1])) &&
    (r.kind != CancelAlarm ==>
       |m| == 4 && m[1].eo + 3 == m[2].so < m[2].eo < |line| &&
       line[m[1].eo] == ')' && line[m[1].eo + 1] == ':' && IsSpace(line[m[1].eo + 2]) &&
       IsDigits(Text(line, m[2])) && r.time == DecimalValue(Text(line, m[2])) &&
       IsSpace(line[m[2].eo]) && m[3] == Span(m[2].eo + 1, |line|) && r.message == line[m[3].so..]) &&
    (r.kind == CancelAlarm ==> r.time == 0 && r.message == "")
  }

  /** The request comes from the submatches of the grammar for its own kind. */
  lemma ParseExtractsFields(line: string)
    requires Representable(line) && Parse(line).Some?
    ensures var r := Parse(line).value;
            var res := Regexec(Regexes[Ordinal(r.kind)].pattern, line);
            res.Some? && ExtractedFrom(r, line, res.value)
  {
    var f := FirstMatch(line, 0);
    var i, m := f.value.0, f.value.1;
    assert Ordinal(Regexes[i].kind) == i by {
      TableMatchesTypeNames();
    }
    BuildExtracts(i, line, m);
  }

  /** What Build makes of the submatches of entry i is extracted from them. */
  lemma BuildExtracts(i: nat, line: string, m: seq<Span>)
    requires i < |Regexes| && Regexec(Regexes[i].pattern, line) == Some(m) && FieldsFit(Regexes[i], line, m)
    ensures Build(Regexes[i], line, m).kind == Regexes[i].kind
    ensures ExtractedFrom(Build(Regexes[i], line, m), line, m)
  {
    RegexecSubmatches(Regexes[i].pattern, line);
    assert Regexes[i] == RegexParser(Regexes[i].kind, Regexes[i].pattern, if i < 2 then 4 else 2) by {
      assert i == 0 || i == 1 || i == 2;
    }
  }

  /** The id submatch, and for a grammar with a period the period and message submatches, as Matches places them. */
  lemma RegexecSubmatches(pat: Pattern, line: string)
    requires Regexec(pat, line).Some?
    ensures var m := Regexec(pat, line).value;
            IsDigits(Text(line, m[1])) &&
            (pat.withPeriod ==>
               m[1].eo + 3 <= m[2].so < m[2].eo < |line| &&
               line[m[1].eo] == ')' && line[m[1].eo + 1] == ':' && IsSpace(line[m[1].eo + 2]) &&
               m[2].so == m[1].eo + 3 && IsDigits(Text(line, m[2])) &&
               IsSpace(line[m[2].eo]) && m[3].so == m[2].eo + 1 &&
               m[3].eo == |line| && Text(line, m[3]) == line[m[3].so..])
  {
    MatchAtSound(pat, line, Regexec(pat, line).value[0].so);
  }

  /** A command line with a period: any prefix, the keyword, the id, the two separators, the period, the message. */
  function WithPeriodLine(prefix: string, keyword: string, id: string, sep1: char, period: string, sep2: char, message: string): string
  {
    prefix + (keyword + "(") + id + ("):" + [sep1]) + period + ([sep2] + message)
  }

  /** A cancel line: any prefix, the keyword, the id in parentheses, any trailing text. */
  function CancelLine(prefix: string, id: string, rest: string): string
  {
    prefix + "Cancel_Alarm(" + id + (")" + rest)
  }

  /** The submatches of a with-period command whose keyword starts at p. */
  function PeriodSpans(p: nat, keywordLength: nat, idLength: nat, periodLength: nat, lineLength: nat): seq<Span>
  {
    var open := p + keywordLength + 1;
    var timeStart := open + idLength + 3;
    var timeEnd := timeStart + periodLength;
    [Span(p, lineLength), Span(open, open + idLength), Span(timeStart, timeEnd), Span(timeEnd + 1, lineLength)]
  }

  /** The middle piece of a three-part string. */
  lemma MiddlePart(x: string, y: string, z: string)
    ensures (x + y + z)[|x|..|x| + |y|] == y
  {
    assert (x + y + z)[|x|..|x| + |y|] == (x + y)[|x|..];
  }

  /** The pieces of a four-part string. */
  lemma FourParts(a: string, b: string, c: string, d: string)
    ensures var s := a + b + c + d;
            var i1 := |a|; var i2 := i1 + |b|; var i3 := i2 + |c|;
            s[i1..i2] == b && s[i2..i3] == c && s[i3..] == d
  {
    var s := a + b + c + d;
    MiddlePart(a, b, c + d);
    assert s == a + b + (c + d);
    MiddlePart(a + b, c, d);
  }

  /** The pieces of a six-part string. */
  lemma SixParts(a: string, b: string, c: string, d: string, e: string, f: string)
    ensures var s := a + b + c + d + e + f;
            var i1 := |a|; var i2 := i1 + |b|; var i3 := i2 + |c|; var i4 := i3 + |d|; var i5 := i4 + |e|;
            s[i1..i2] == b && s[i2..i3] == c && s[i3..i4] == d && s[i4..i5] == e && s[i5..] == f
  {
    var s := a + b + c + d + e + f;
    assert s == a + b + (c + d + e + f);
    MiddlePart(a, b, c + d + e + f);
    assert s == (a + b) + c + (d + e + f);
    MiddlePart(a + b, c, d + e + f);
    assert s == (a + b + c) + d + (e + f);
    MiddlePart(a + b + c, d, e + f);
    assert s == (a + b + c + d) + e + f;
    MiddlePart(a + b + c + d, e, f);
  }

  /** The submatches of a with-period match, given each atom of the pattern separately. */
  lemma PeriodMatchFromParts(keyword: string, line: string, p: nat, idEnd: nat, timeEnd: nat)
    requires p + |keyword| + 1 < idEnd && idEnd + 3 < timeEnd < |line|
    requires line[p..p + |keyword| + 1] == keyword + "("
    requires IsDigits(line[p + |keyword| + 1..idEnd]) && line[idEnd] == ')'
    requires line[idEnd + 1] == ':' && IsSpace(line[idEnd + 2])
    requires IsDigits(line[idEnd + 3..timeEnd]) && IsSpace(line[timeEnd])
    ensures Matches(Pattern(keyword, true), line, p, |line|,
                    [Span(p, |line|), Span(p + |keyword| + 1, idEnd), Span(idEnd + 3, timeEnd), Span(timeEnd + 1, |line|)])
  {
  }

  /** The same, given the pieces of the line as slices of it. */
  lemma PeriodMatchFromSlices(line: string, p: nat, keyword: string, id: string, sep1: char, period: string, sep2: char, message: string)
    requires IsDigits(id) && id != [] && IsDigits(period) && period != [] && IsSpace(sep1) && IsSpace(sep2)
    requires var open := p + |keyword| + 1;
             var idEnd := open + |id|;
             var timeEnd := idEnd + 3 + |period|;
             timeEnd < |line| &&
             line[p..open] == keyword + "(" && line[open..idEnd] == id && line[idEnd..idEnd + 3] == "):" + [sep1] &&
             line[idEnd + 3..timeEnd] == period && line[timeEnd..] == [sep2] + message
    ensures var m := PeriodSpans(p, |keyword|, |id|, |period|, |line|);
            Matches(Pattern(keyword, true), line, p, |line|, m) &&
            Text(line, m[1]) == id && Text(line, m[2]) == period && Text(line, m[3]) == message
  {
    var idEnd := p + |keyword| + 1 + |id|;
    var timeEnd := idEnd + 3 + |period|;
    assert line[idEnd..idEnd + 3][0] == line[idEnd];
    assert line[idEnd..idEnd + 3][1] == line[idEnd + 1];
    assert line[idEnd..idEnd + 3][2] == line[idEnd + 2];
    assert line[timeEnd..][0] == line[timeEnd];
    assert line[timeEnd + 1..] == line[timeEnd..][1..];
    PeriodMatchFromParts(keyword, line, p, idEnd, timeEnd);
  }

  /** A with-period command line, wherever it stands, is a longest match of its grammar. */
  lemma WithPeriodLineMatches(prefix: string, keyword: string, id: string, sep1: char, period: string, sep2: char, message: string)
    requires IsDigits(id) && id != [] && IsDigits(period) && period != [] && IsSpace(sep1) && IsSpace(sep2)
    ensures var line := WithPeriodLine(prefix, keyword, id, sep1, period, sep2, message);
            var m := PeriodSpans(|prefix|, |keyword|, |id|, |period|, |line|);
            Matches(Pattern(keyword, true), line, |prefix|, |line|, m) &&
            Text(line, m[1]) == id && Text(line, m[2]) == period && Text(line, m[3]) == message
  {
    var line := WithPeriodLine(prefix, keyword, id, sep1, period, sep2, message);
    SixParts(prefix, keyword + "(", id, "):" + [sep1], period, [sep2] + message);
    PeriodMatchFromSlices(line, |prefix|, keyword, id, sep1, period, sep2, message);
  }

  /** A cancel command line, wherever it stands, is a match of the Cancel grammar. */
  lemma CancelLineMatches(prefix: string, id: string, rest: string)
    requires IsDigits(id) && id != []
    ensures var line := CancelLine(prefix, id, rest);
            var p := |prefix|;
            var open := p + |Regexes[2].pattern.keyword| + 1;
            var m := [Span(p, open + |id| + 1), Span(open, open + |id|)];
            Matches(Regexes[2].pattern, line, p, open + |id| + 1, m) && Text(line, m[1]) == id
  {
    var line := CancelLine(prefix, id, rest);
    FourParts(prefix, "Cancel_Alarm(", id, ")" + rest);
    var idEnd := |prefix| + 13 + |id|;
    assert line[idEnd..][0] == line[idEnd];
  }

  /** A longest match with no match of its grammar further left is what Regexec reports. */
  lemma RegexecFinds(pat: Pattern, line: string, p: nat, q: nat, m: seq<Span>)
    requires Matches(pat, line, p, q, m)
    requires pat.withPeriod ==> q == |line|
    requires forall p' :: 0 <= p' < p ==> MatchAt(pat, line, p').None?
    ensures Regexec(pat, line) == Some(m)
  {
    MatchAtComplete(pat, line, p, q, m);
    SearchFindsFirst(pat, line, 0, p);
  }

  /** When entry i is the first whose grammar matches and its fields fit, Parse builds from it. */
  lemma ParseOfFirstMatch(line: string, i: nat, m: seq<Span>)
    requires i < |Regexes| && Regexec(Regexes[i].pattern, line) == Some(m)
    requires i > 0 ==> Regexec(Regexes[0].pattern, line).None?
    requires i > 1 ==> Regexec(Regexes[1].pattern, line).None?
    requires FieldsFit(Regexes[i], line, m)
    ensures Representable(line) && Parse(line) == Some(Build(Regexes[i], line, m))
  {
    assert FirstMatch(line, i) == Some((i, m));
    if i == 2 {
      assert FirstMatch(line, 1) == FirstMatch(line, 2);
    }
    if i >= 1 {
      assert FirstMatch(line, 0) == FirstMatch(line, 1);
    }
  }

  /**
   * A Start or Change command is recognised wherever it stands in the line
   * (the match is unanchored), provided no grammar tried earlier matches and
   * no match of its own grammar starts further left; the message is
   * everything after the single separator that follows the period.
   */
  lemma ParseWithPeriod(line: string, prefix: string, i: nat, id: string, sep1: char, period: string, sep2: char, message: string)
    requires i < 2 && line == WithPeriodLine(prefix, Regexes[i].pattern.keyword, id, sep1, period, sep2, message)
    requires IsDigits(id) && id != [] && |id| < DigitBufferSize && DecimalValue(id) <= IntMax
    requires IsDigits(period) && period != [] && |period| < DigitBufferSize && DecimalValue(period) <= IntMax
    requires IsSpace(sep1) && IsSpace(sep2) && |message| < MaximumMessageSize
    requires i == 1 ==> Regexec(Regexes[0].pattern, line).None?
    requires forall p :: 0 <= p < |prefix| ==> MatchAt(Regexes[i].pattern, line, p).None?
    ensures Representable(line) &&
            Parse(line) == Some(AlarmRequest(DecimalValue(id), Regexes[i].kind, DecimalValue(period), message))
  {
    var pat := Regexes[i].pattern;
    var m := PeriodSpans(|prefix|, |pat.keyword|, |id|, |period|, |line|);
    WithPeriodLineMatches(prefix, pat.keyword, id, sep1, period, sep2, message);
    RegexecFinds(pat, line, |prefix|, |line|, m);
    ParseOfFirstMatch(line, i, m);
  }

  /**
   * A Cancel command is recognised wherever it stands and whatever follows
   * it, provided neither grammar with a period matches anywhere in the line
   * and no Cancel match starts further left.
   */
  lemma ParseCancel(line: string, prefix: string, id: string, rest: string)
    requires line == CancelLine(prefix, id, rest)
    requires IsDigits(id) && id != [] && |id| < DigitBufferSize && DecimalValue(id) <= IntMax
    requires Regexec(Regexes[0].pattern, line).None? && Regexec(Regexes[1].pattern, line).None?
    requires forall p :: 0 <= p < |prefix| ==> MatchAt(Regexes[2].pattern, line, p).None?
    ensures Representable(line) && Parse(line) == Some(AlarmRequest(DecimalValue(id), CancelAlarm, 0, ""))
  {
    var e := Regexes[2];
    assert e == RegexParser(CancelAlarm, Pattern("Cancel_Alarm", false), 2);
    var p := |prefix|;
    var open := p + 13;
    var m := [Span(p, open + |id| + 1), Span(open, open + |id|)];
    CancelLineMatches(prefix, id, rest);
    assert Text(line, m[1]) == id;
    RegexecFinds(e.pattern, line, p, open + |id| + 1, m);
    assert FieldsFit(e, line, m);
    assert Build(e, line, m) == AlarmRequest(DecimalValue(id), CancelAlarm, 0, "");
    ParseOfFirstMatch(line, 2, m);
  }

  // ---------------------------------------------------------------------------
  // Lines of a given shape
  // ---------------------------------------------------------------------------

  /** A Start command after text in which no 'S' occurs is read as that command. */
  lemma ParseStartAfter(line: string, prefix: string, id: string, period: string, message: string)
    requires line == WithPeriodLine(prefix, "Start_Alarm", id, ' ', period, ' ', message) && 'S' !in prefix
    requires IsDigits(id) && id != [] && |id| < DigitBufferSize && DecimalValue(id) <= IntMax
    requires IsDigits(period) && period != [] && |period| < DigitBufferSize && DecimalValue(period) <= IntMax
    requires |message| < MaximumMessageSize
    ensures Representable(line) &&
            Parse(line) == Some(AlarmRequest(DecimalValue(id), StartAlarm, DecimalValue(period), message))
  {
    assert forall p :: 0 <= p < |prefix| ==> MatchAt(Regexes[0].pattern, line, p).None? by {
      assert line[0..|prefix|] == prefix;
      NoMatchStartsIn(Regexes[0].pattern, line, 0, |prefix|);
    }
    ParseWithPeriod(line, prefix, 0, id, ' ', period, ' ', message);
  }

  /**
   * A Cancel command after text in which no 'C' occurs is read as that
   * command when the line has neither an 'S' nor an 'h', the letters that
   * the Start and Change keywords need.
   */
  lemma ParseCancelAfter(line: string, prefix: string, id: string, rest: string)
    requires line == CancelLine(prefix, id, rest) && 'C' !in prefix && 'S' !in line && 'h' !in line
    requires IsDigits(id) && id != [] && |id| < DigitBufferSize && DecimalValue(id) <= IntMax
    ensures Representable(line) && Parse(line) == Some(AlarmRequest(DecimalValue(id), CancelAlarm, 0, ""))
  {
    assert forall p :: 0 <= p < |prefix| ==> MatchAt(Regexes[2].pattern, line, p).None? by {
      assert line[0..|prefix|] == prefix;
      NoMatchStartsIn(Regexes[2].pattern, line, 0, |prefix|);
    }
    NoPeriodGrammarWithout(line);
    ParseCancel(line, prefix, id, rest);
  }

  /** Neither grammar with a period matches a line that has no 'S' and no 'h'. */
  lemma NoPeriodGrammarWithout(line: string)
    requires 'S' !in line && 'h' !in line
    ensures Regexec(Regexes[0].pattern, line).None? && Regexec(Regexes[1].pattern, line).None?
  {
    NoMatchWithoutKeyword(Regexes[0].pattern, line, 'S');
    NoMatchWithoutKeyword(Regexes[1].pattern, line, 'h');
  }

  /** A line on which Start does not match and that has no 'h' and no 'C' is a bad command. */
  lemma ParseNoneWithoutChangeOrCancel(line: string)
    requires Regexec(Regexes[0].pattern, line).None? && 'h' !in line && 'C' !in line
    ensures Representable(line) && Parse(line).None?
  {
    NoMatchWithoutKeyword(Regexes[1].pattern, line, 'h');
    NoMatchWithoutKeyword(Regexes[2].pattern, line, 'C');
    assert FirstMatch(line, 3).None?;
  }

  // ---------------------------------------------------------------------------
  // Examples
  // ---------------------------------------------------------------------------

  // Each example states its literal line's shape in a separate small lemma
  // (StartShape, CancelShape, CancelLetters and the like) and then applies a
  // general lemma above: keeping the literal out of the parsing proof keeps
  // the solver from unfolding the parser on the literal, which is costly.

  /** The command of a first scenario: id 1, period 5, message "wake up". */
  lemma ExampleStart(line: string)
    requires line == "Start_Alarm(1): 5 wake up"
    ensures Representable(line) && Parse(line) == Some(AlarmRequest(1, StartAlarm, 5, "wake up"))
  {
    var id, period := "1", "5";
    StartShape(line);
    assert DecimalValue(id) == 1 && DecimalValue(period) == 5;
    ParseStartAfter(line, "", id, period, "wake up");
  }

  lemma StartShape(line: string)
    requires line == "Start_Alarm(1): 5 wake up"
    ensures line == WithPeriodLine("", "Start_Alarm", "1", ' ', "5", ' ', "wake up")
  {
  }

  /**
   * Start has priority wherever it appears: a Change command whose message
   * holds a Start command is read as that Start command.
   */
  lemma ExampleStartInsideChange(line: string)
    requires line == "Change_Alarm(1): 2 Start_Alarm(3): 4 y"
    ensures Representable(line) && Parse(line) == Some(AlarmRequest(3, StartAlarm, 4, "y"))
  {
    var prefix, id, period := "Change_Alarm(1): 2 ", "3", "4";
    StartInsideChangeShape(line, prefix);
    assert DecimalValue(id) == 3 && DecimalValue(period) == 4;
    ParseStartAfter(line, prefix, id, period, "y");
  }

  lemma StartInsideChangeShape(line: string, prefix: string)
    requires line == "Change_Alarm(1): 2 Start_Alarm(3): 4 y" && prefix == "Change_Alarm(1): 2 "
    ensures line == WithPeriodLine(prefix, "Start_Alarm", "3", ' ', "4", ' ', "y")
  {
  }

  /** Text around a Cancel command does not stop it from being recognised. */
  lemma ExampleCancelWithSurroundingText(line: string)
    requires line == "> Cancel_Alarm(9) now"
    ensures Representable(line) && Parse(line) == Some(AlarmRequest(9, CancelAlarm, 0, ""))
  {
    var id := "9";
    CancelShape(line);
    CancelLetters(line);
    assert DecimalValue(id) == 9;
    ParseCancelAfter(line, "> ", id, " now");
  }

  lemma CancelShape(line: string)
    requires line == "> Cancel_Alarm(9) now"
    ensures line == CancelLine("> ", "9", " now")
  {
  }

  lemma CancelLetters(line: string)
    requires line == "> Cancel_Alarm(9) now"
    ensures 'S' !in line && 'h' !in line
  {
  }

  /** Without the space after the colon no grammar matches. */
  lemma ExampleMissingSeparator(line: string)
    requires line == "Start_Alarm(1):5 x"
    ensures Representable(line) && Parse(line).None?
  {
    NoStartWithoutSeparator(line);
    ParseNoneWithoutChangeOrCancel(line);
  }

  lemma NoStartWithoutSeparator(line: string)
    requires line == "Start_Alarm(1):5 x"
    ensures Regexec(Regexes[0].pattern, line).None? && 'h' !in line && 'C' !in line
  {
    NoStartAtFirst(line);
    NoStartAfterFirst(line);
    MissingSeparatorLetters(line);
  }

  lemma NoStartAtFirst(line: string)
    requires line == "Start_Alarm(1):5 x"
    ensures MatchAt(Regexes[0].pattern, line, 0).None?
  {
    var pat := Regexes[0].pattern;
    assert line[0..12] == pat.keyword + "(";
    assert line[12..13] == "1";
    DigitRunIsForced(line, 12, 13);
    assert line[13] == ')' && line[14] == ':' && !IsSpace(line[15]);
  }

  lemma NoStartAfterFirst(line: string)
    requires line == "Start_Alarm(1):5 x"
    ensures forall p :: 1 <= p <= |line| ==> MatchAt(Regexes[0].pattern, line, p).None?
  {
    assert 'S' !in line[1..|line|];
    NoMatchStartsIn(Regexes[0].pattern, line, 1, |line|);
    assert MatchAt(Regexes[0].pattern, line, |line|).None?;
  }

  lemma MissingSeparatorLetters(line: string)
    requires line == "Start_Alarm(1):5 x"
    ensures 'h' !in line && 'C' !in line
  {
  }
}
