/** What `PingService` makes of one line of the probe's output: the two
    marker checks, the search for `time=(\d+ms)`, `Integer.parseInt` of the
    digits and `formatAsClock`. */
module ProbeOutput {
  import opened Text
  import opened Decimal

  const TimeoutMarker := "Request timed out."
  const UnreachableMarker := "Destination host unreachable"

  /** The strings handed to the output consumer. */
  const TimeoutText := "Error"
  const UnreachableText := "ERROR"
  const FatalText := "Error occurred during ping execution."
  const LatencyUnit := "MS"

  const TimeKey := "time="
  const MsKey := "ms"

  // ---------------------------------------------------------------------
  // The pattern time=(\d+ms), found anywhere in a line
  // ---------------------------------------------------------------------

  /** Length of the run of ASCII digits that starts at `i`. */
  function DigitRun(s: string, i: nat): (k: nat)
    requires i <= |s|
    ensures i + k <= |s|
    ensures forall j :: i <= j < i + k ==> IsDigit(s[j])
    ensures i + k < |s| ==> !IsDigit(s[i + k])
    decreases |s| - i
  {
    if i < |s| && IsDigit(s[i]) then 1 + DigitRun(s, i + 1) else 0
  }

  /** The pattern matches at `p` with `k` digits: "time=", then `k >= 1`
      ASCII digits, then "ms". */
  predicate TimeTokenAt(s: string, p: int, k: int) {
    && 0 <= p && 1 <= k && p + 5 + k + 2 <= |s|
    && OccursAt(s, TimeKey, p)
    && (forall j :: p + 5 <= j < p + 5 + k ==> IsDigit(s[j]))
    && OccursAt(s, MsKey, p + 5 + k)
  }

  /** A run of `k` digits followed by a non-digit is the whole run. */
  lemma {:induction false} DigitRunExact(s: string, i: nat, k: nat)
    requires i + k < |s| && !IsDigit(s[i + k])
    requires forall j :: i <= j < i + k ==> IsDigit(s[j])
    ensures DigitRun(s, i) == k
    decreases k
  {
    if k > 0 {
      DigitRunExact(s, i + 1, k - 1);
    }
  }

  /** At a given position the match, if any, has one length: `\d+` cannot
      stop early because the next character would have to be 'm'. */
  lemma TokenLengthIsDigitRun(s: string, p: int, k: int)
    requires TimeTokenAt(s, p, k)
    ensures k == DigitRun(s, p + 5)
  {
    assert s[p + 5 + k] == 'm' by {
      assert s[p + 5 + k..p + 5 + k + 2][0] == s[p + 5 + k];
    }
    DigitRunExact(s, p + 5, k);
  }

  /** The attempt `Matcher.find` makes at position `p` alone: the number of
      digits matched, or 0 when the pattern does not match there. */
  function TokenLengthAt(s: string, p: nat): (k: nat)
    ensures k >= 1 ==> TimeTokenAt(s, p, k)
    ensures k == 0 ==> forall j :: !TimeTokenAt(s, p, j)
  {
    if p + 5 <= |s| && OccursAt(s, TimeKey, p) then
      var k := DigitRun(s, p + 5);
      if k >= 1 && OccursAt(s, MsKey, p + 5 + k) then k
      else
        assert forall j :: !TimeTokenAt(s, p, j) by {
          forall j | TimeTokenAt(s, p, j) ensures j == k {
            TokenLengthIsDigitRun(s, p, j);
          }
        }
        0
    else 0
  }

  /** The outcome of the search: no match, or a match at `pos` whose
      captured digits are the `len` characters after "time=". */
  datatype TokenSearch = NoToken | Token(pos: nat, len: nat)

  /** `Matcher.find` from index `from`: the leftmost position at which the
      pattern matches, and how many digits it captured. */
  function FindTimeToken(s: string, from: nat): (r: TokenSearch)
    requires from <= |s|
    ensures r.NoToken? ==> forall p, k :: from <= p ==> !TimeTokenAt(s, p, k)
    ensures r.Token? ==> from <= r.pos && TimeTokenAt(s, r.pos, r.len)
    ensures r.Token? ==> forall p, k :: from <= p < r.pos ==> !TimeTokenAt(s, p, k)
    decreases |s| - from
  {
    var here := TokenLengthAt(s, from);
    if here >= 1 then Token(from, here)
    else if from == |s| then NoToken
    else FindTimeToken(s, from + 1)
  }

  /** Two leftmost matches are the same match. */
  lemma FirstTokenUnique(s: string, p: int, k: int)
    requires TimeTokenAt(s, p, k)
    requires forall q, j :: 0 <= q < p ==> !TimeTokenAt(s, q, j)
    ensures FindTimeToken(s, 0) == Token(p, k)
  {
    var r := FindTimeToken(s, 0);
    assert r.Token?;
    assert r.pos == p;
    TokenLengthIsDigitRun(s, p, k);
    TokenLengthIsDigitRun(s, p, r.len);
  }

  // ---------------------------------------------------------------------
  // formatAsClock
  // ---------------------------------------------------------------------

  /** Java's `%` on `int`: the remainder takes the sign of the dividend. */
  function JavaRem(a: int, b: int): (r: int)
    requires b > 0
    ensures -b < r < b
    ensures a >= 0 ==> r == a % b
  {
    if a >= 0 then a % b else -((-a) % b)
  }

  /** `formatAsClock`: the milliseconds modulo 1000, as `%03d`. For the
      non-negative values the probe produces, three digits worth `n % 1000`. */
  function FormatAsClock(n: Int32): (r: string)
    ensures n >= 0 ==> |r| == 3 && AllDigits(r) && Value(r) == n % 1000
    ensures n < 0 && JavaRem(n, 1000) < 0 ==>
              3 <= |r| <= 4 && r[0] == '-' && AllDigits(r[1..]) && Value(r[1..]) == (-(n as int)) % 1000
  {
    var ms := JavaRem(n, 1000);
    DecimalBelow1000(if ms < 0 then -ms else ms);
    FormatZeroPadded(ms, 3)
  }

  // ---------------------------------------------------------------------
  // One line
  // ---------------------------------------------------------------------

  /** The outcome of one line of probe output. `Unparsable` is the
      NumberFormatException `parseInt` throws for digits beyond `int`. */
  datatype Verdict = TimedOut | Unreachable | Latency(millis: Millis) | Unparsable | Silent

  /** A parsed round-trip time: digits only, so never negative. */
  type Millis = n: int | 0 <= n <= IntMax

  /** The body of the reader loop for one line: the timeout marker first,
      then the unreachable marker, then the first `time=<digits>ms`. The
      group is read as `ParseDigits` of its digits; `GroupReadsDigits` shows
      that this is what `ReadGroup` makes of the whole group. */
  function Classify(line: string): (v: Verdict)
    ensures v == TimedOut <==> Contains(line, TimeoutMarker)
    ensures v == Unreachable <==> !Contains(line, TimeoutMarker) && Contains(line, UnreachableMarker)
    ensures v == Silent <==>
              && !Contains(line, TimeoutMarker)
              && !Contains(line, UnreachableMarker)
              && forall p, k :: !TimeTokenAt(line, p, k)
  {
    if Contains(line, TimeoutMarker) then TimedOut
    else if Contains(line, UnreachableMarker) then Unreachable
    else match FindTimeToken(line, 0)
      case NoToken => Silent
      case Token(p, k) =>
        TokenDigits(line, p, k);
        ParseDigits(line[p + 5..p + 5 + k])
  }

  /** The group captured by a match: its digits followed by "ms". */
  lemma TokenDigits(s: string, p: int, k: int)
    requires TimeTokenAt(s, p, k)
    ensures |s[p + 5..p + 5 + k]| >= 1 && AllDigits(s[p + 5..p + 5 + k])
    ensures s[p + 5..p + 5 + k + 2] == s[p + 5..p + 5 + k] + MsKey
  {
    assert s[p + 5 + k..p + 5 + k + 2] == MsKey;
  }

  /** `Integer.parseInt(group.replace("ms", "").trim())`. */
  function ReadGroup(group: string): ParseResult {
    ParseInt(Trim(RemoveAll(group, MsKey)))
  }

  /** `Integer.parseInt` of a string of digits: its value as a latency when it
      fits in an `int`, otherwise the NumberFormatException. */
  function ParseDigits(digits: string): (v: Verdict)
    requires |digits| >= 1 && AllDigits(digits)
    ensures Value(digits) <= IntMax ==> v == Latency(Value(digits))
    ensures Value(digits) > IntMax ==> v == Unparsable
  {
    match ParseInt(digits)
    case Parsed(n) => Latency(n)
    case NumberFormatError => Unparsable
  }

  /** Removing "ms" from a captured group and trimming it leaves exactly its
      digits, so reading the group is parsing the digits. */
  lemma GroupReadsDigits(digits: string)
    requires |digits| >= 1 && AllDigits(digits)
    ensures Trim(RemoveAll(digits + MsKey, MsKey)) == digits
    ensures ReadGroup(digits + MsKey) == ParseInt(digits)
  {
    RemoveUnitAfterDigits(digits);
    assert IsDigit(digits[0]) && IsDigit(digits[|digits| - 1]);
    TrimNoPadding(digits);
  }

  /** A line with neither marker is decided by its first `time=` token: its
      digits as a latency when they fit in an `int`, otherwise the
      NumberFormatException. */
  lemma ClassifyFirstToken(line: string, p: int, k: int)
    requires !Contains(line, TimeoutMarker) && !Contains(line, UnreachableMarker)
    requires TimeTokenAt(line, p, k)
    requires forall q, j :: 0 <= q < p ==> !TimeTokenAt(line, q, j)
    ensures AllDigits(line[p + 5..p + 5 + k])
    ensures Value(line[p + 5..p + 5 + k]) <= IntMax ==> Classify(line) == Latency(Value(line[p + 5..p + 5 + k]))
    ensures Value(line[p + 5..p + 5 + k]) > IntMax ==> Classify(line) == Unparsable
  {
    FirstTokenUnique(line, p, k);
    TokenDigits(line, p, k);
    ClassifyAtToken(line, p, k);
  }

  /** What the source parses at a match: reading the whole captured group
      is parsing the digits after "time=". */
  lemma TokenGroupRead(line: string, p: int, k: int)
    requires TimeTokenAt(line, p, k)
    ensures ReadGroup(line[p + 5..p + 5 + k + 2]) == ParseInt(line[p + 5..p + 5 + k])
  {
    TokenDigits(line, p, k);
    GroupReadsDigits(line[p + 5..p + 5 + k]);
  }

  lemma ClassifyAtToken(line: string, p: int, k: int)
    requires !Contains(line, TimeoutMarker) && !Contains(line, UnreachableMarker)
    requires TimeTokenAt(line, p, k)
    requires FindTimeToken(line, 0) == Token(p, k)
    ensures |line[p + 5..p + 5 + k]| >= 1 && AllDigits(line[p + 5..p + 5 + k])
    ensures Classify(line) == ParseDigits(line[p + 5..p + 5 + k])
  {
    TokenDigits(line, p, k);
  }

  /** What the consumer receives for one line: at most one string. */
  function Display(v: Verdict): (shown: seq<string>)
    ensures |shown| <= 1
    ensures v == Silent <==> shown == []
    ensures forall i :: 0 <= i < |shown| ==> IsDisplayText(shown[i])
  {
    match v
    case TimedOut => [TimeoutText]
    case Unreachable => [UnreachableText]
    case Latency(n) => [FormatAsClock(n) + LatencyUnit]
    case Unparsable => [FatalText]
    case Silent => []
  }

  /** The only texts that ever reach the label: the two error indicators,
      the fatal message, or three digits followed by "MS". */
  predicate IsDisplayText(t: string) {
    || t == TimeoutText
    || t == UnreachableText
    || t == FatalText
    || (|t| == 5 && AllDigits(t[..3]) && t[3..] == LatencyUnit)
  }

  /** Neither marker can occur in a line without a 'q' and a 'D'. */
  lemma NoMarkers(line: string)
    requires 'q' !in line && 'D' !in line
    ensures !Contains(line, TimeoutMarker) && !Contains(line, UnreachableMarker)
  {
    assert TimeoutMarker[2] == 'q';
    MissingCharNotContained(line, TimeoutMarker, 2);
    assert UnreachableMarker[0] == 'D';
    MissingCharNotContained(line, UnreachableMarker, 0);
  }

  /** A bare reply `time=<d>ms` has its token, with the digits `d`, at
      position `p`, which is 0. The position is returned rather than written
      as a literal at the call site so that the verifier does not try to
      evaluate the search on a constant. */
  lemma BareToken(d: string, line: string) returns (p: nat)
    requires |d| >= 1 && AllDigits(d) && line == TimeKey + d + MsKey
    ensures p == 0
    ensures 'q' !in line && 'D' !in line
    ensures TimeTokenAt(line, p, |d|) && line[p + 5..p + 5 + |d|] == d
  {
    p := 0;
    assert forall i :: 0 <= i < |d| ==> IsDigit(d[i]);
    assert line[0..5] == TimeKey && line[5..5 + |d|] == d && line[5 + |d|..5 + |d| + 2] == MsKey;
  }

  /** A line without markers whose first `time=<digits>ms` token is at `p` is
      shown as the clock reading of those digits. */
  lemma FirstTokenShown(line: string, p: int, k: int)
    requires !Contains(line, TimeoutMarker) && !Contains(line, UnreachableMarker)
    requires TimeTokenAt(line, p, k)
    requires forall q, j :: 0 <= q < p ==> !TimeTokenAt(line, q, j)
    requires Value(line[p + 5..p + 5 + k]) <= IntMax
    ensures Display(Classify(line)) == [FormatAsClock(Value(line[p + 5..p + 5 + k])) + LatencyUnit]
  {
    ClassifyFirstToken(line, p, k);
  }

  /** `formatAsClock(n)` is the one three-digit numeral worth `n % 1000`. */
  lemma ClockIsUniqueNumeral(n: Millis, r: string)
    requires |r| == 3 && AllDigits(r) && Value(r) == n % 1000
    ensures FormatAsClock(n) == r
  {
    ValueInjective(FormatAsClock(n), r);
  }

  /** A bare reply `time=<d>ms` is shown as the clock reading of `d`. */
  lemma BareTokenShown(d: string)
    requires |d| >= 1 && AllDigits(d) && Value(d) <= IntMax
    ensures Display(Classify(TimeKey + d + MsKey)) == [FormatAsClock(Value(d)) + LatencyUnit]
  {
    var line := TimeKey + d + MsKey;
    var p := BareToken(d, line);
    NoMarkers(line);
    FirstTokenShown(line, p, |d|);
  }

  /** A reply line without markers whose leftmost token's digits are worth
      `n`, such as `Reply from 8.8.8.8: bytes=32 time=14ms TTL=117`, is shown
      as the three-digit numeral worth `n % 1000`, followed by "MS". */
  lemma ReplyShownAsClock(line: string, p: int, k: int, clock: string)
    requires !Contains(line, TimeoutMarker) && !Contains(line, UnreachableMarker)
    requires TimeTokenAt(line, p, k)
    requires forall q, j :: 0 <= q < p ==> !TimeTokenAt(line, q, j)
    requires Value(line[p + 5..p + 5 + k]) <= IntMax
    requires |clock| == 3 && AllDigits(clock) && Value(clock) == Value(line[p + 5..p + 5 + k]) % 1000
    ensures Display(Classify(line)) == [clock + LatencyUnit]
  {
    FirstTokenShown(line, p, k);
    ClockIsUniqueNumeral(Value(line[p + 5..p + 5 + k]), clock);
  }

  /** A bare reply `time=<d>ms` is shown as `clock`, the three-digit numeral
      worth `d` modulo 1000. */
  lemma BareReplyShownAsClock(d: string, clock: string)
    requires |d| >= 1 && AllDigits(d) && Value(d) <= IntMax
    requires |clock| == 3 && AllDigits(clock) && Value(clock) == Value(d) % 1000
    ensures Display(Classify(TimeKey + d + MsKey)) == [clock + LatencyUnit]
  {
    BareTokenShown(d);
    ClockIsUniqueNumeral(Value(d), clock);
  }

  lemma ValueOf137() ensures Value("137") == 137 {
    assert "137"[..2] == "13" && "13"[..1] == "1" && "1"[..0] == "";
  }

  lemma ValueOf2005() ensures Value("2005") == 2005 {
    assert "2005"[..3] == "200" && "200"[..2] == "20" && "20"[..1] == "2" && "2"[..0] == "";
  }

  lemma ValueOf005() ensures Value("005") == 5 {
    assert "005"[..2] == "00" && "00"[..1] == "0" && "0"[..0] == "";
  }

  lemma ValueOf007() ensures Value("007") == 7 {
    assert "007"[..2] == "00" && "00"[..1] == "0" && "0"[..0] == "";
  }

  // The examples below take their literals through `requires` so that the
  // verifier reasons about `Classify` symbolically instead of evaluating it.

  /** `time=137ms` is shown as 137MS. */
  lemma Example137(d: string)
    requires d == "137"
    ensures Display(Classify(TimeKey + d + MsKey)) == [d + LatencyUnit]
  {
    ValueOf137();
    BareReplyShownAsClock(d, d);
  }

  /** `time=2005ms` is reduced modulo 1000 and shown as 005MS. */
  lemma Example2005(d: string, clock: string)
    requires d == "2005" && clock == "005"
    ensures Display(Classify(TimeKey + d + MsKey)) == [clock + LatencyUnit]
  {
    ValueOf2005();
    ValueOf005();
    BareReplyShownAsClock(d, clock);
  }

  /** Leading zeros in the reply survive: `time=007ms` is shown as 007MS. */
  lemma Example007(d: string)
    requires d == "007"
    ensures Display(Classify(TimeKey + d + MsKey)) == [d + LatencyUnit]
  {
    ValueOf007();
    BareReplyShownAsClock(d, d);
  }

  lemma TokenNeedsKey(s: string, p: int, k: int)
    ensures TimeTokenAt(s, p, k) ==> Contains(s, TimeKey)
  {
    if TimeTokenAt(s, p, k) {
      assert OccursAt(s, TimeKey, p);
    }
  }

  /** Windows writes `time<1ms` for sub-millisecond replies; that line shows nothing. */
  lemma SubMillisecondReplySilent()
    ensures Classify("time<1ms") == Silent
  {
    var line := "time<1ms";
    assert TimeoutMarker[2] == 'q' && 'q' !in line;
    MissingCharNotContained(line, TimeoutMarker, 2);
    assert UnreachableMarker[0] == 'D' && 'D' !in line;
    MissingCharNotContained(line, UnreachableMarker, 0);
    assert TimeKey[4] == '=' && '=' !in line;
    MissingCharNotContained(line, TimeKey, 4);
    forall p, k ensures !TimeTokenAt(line, p, k) {
      TokenNeedsKey(line, p, k);
    }
  }

  /** The timeout marker wins over everything else on the line. */
  lemma TimeoutWins(line: string)
    requires Contains(line, TimeoutMarker)
    ensures Display(Classify(line)) == [TimeoutText]
  {
  }

  /** The unreachable marker wins over any latency token. */
  lemma UnreachableBeforeLatency(line: string)
    requires !Contains(line, TimeoutMarker) && Contains(line, UnreachableMarker)
    ensures Display(Classify(line)) == [UnreachableText]
  {
  }
}
