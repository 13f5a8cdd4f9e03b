/** The two anchored patterns `PingService` validates a host against,
    written as predicates over characters rather than as regular expressions:
      IPv4:   ^([0-9]{1,3}\.){3}[0-9]{1,3}$
      domain: ^[a-zA-Z0-9.-]+\.[a-zA-Z]{2,6}$
    `Pattern.matches` demands that the whole string match. */
module HostPattern {
  import opened Text

  // ---------------------------------------------------------------------
  // IPv4
  // ---------------------------------------------------------------------

  /** `[0-9]{1,3}`: one to three ASCII digits. There is no range check. */
  predicate IsOctetGroup(g: string) {
    1 <= |g| <= 3 && AllDigits(g)
  }

  /** `([0-9]{1,3}\.){k}[0-9]{1,3}` matched against all of `s[st..]`, read
      as the regular expression reads it: a group, a dot, and the rest. */
  predicate DottedGroups(s: string, st: nat, k: nat)
    requires st <= |s|
    decreases k
  {
    if k == 0 then IsOctetGroup(s[st..])
    else exists n: nat | n <= 3 :: GroupThenDot(s, st, n, k)
  }

  /** `s[st..st + n]` is a group followed by the escaped dot, and the `k - 1`
      remaining repetitions match after it. */
  predicate GroupThenDot(s: string, st: nat, n: nat, k: nat)
    requires k > 0
    decreases k, 0
  {
    && 1 <= n <= 3 && st + n < |s|
    && IsOctetGroup(s[st..st + n]) && s[st + n] == '.'
    && DottedGroups(s, st + n + 1, k - 1)
  }

  /** `PingService.isValidIP`. */
  predicate IsValidIP(s: string) {
    DottedGroups(s, 0, 3)
  }

  /** Index of the first '.' at or after `i`, or `|s|` when there is none. */
  function DotFrom(s: string, i: nat): (d: nat)
    requires i <= |s|
    ensures i <= d <= |s|
    ensures d < |s| ==> s[d] == '.'
    ensures forall j :: i <= j < d ==> s[j] != '.'
    decreases |s| - i
  {
    if i == |s| || s[i] == '.' then i else DotFrom(s, i + 1)
  }

  /** The dot-separated fields of `s[st..]`. */
  function FieldsFrom(s: string, st: nat): (r: seq<string>)
    requires st <= |s|
    ensures |r| >= 1
    decreases |s| - st
  {
    var d := DotFrom(s, st);
    if d == |s| then [s[st..]] else [s[st..d]] + FieldsFrom(s, d + 1)
  }

  /** `s.split("\\.", -1)`: every field, empty ones included. */
  function Fields(s: string): seq<string> {
    FieldsFrom(s, 0)
  }

  /** One unfolding of `FieldsFrom` at the next dot. */
  lemma FieldsStep(s: string, st: nat)
    requires st <= |s| && DotFrom(s, st) < |s|
    ensures FieldsFrom(s, st) == [s[st..DotFrom(s, st)]] + FieldsFrom(s, DotFrom(s, st) + 1)
  {
  }

  lemma FieldsLast(s: string, st: nat)
    requires st <= |s| && DotFrom(s, st) == |s|
    ensures FieldsFrom(s, st) == [s[st..]]
  {
  }

  /** A dot with no other dot between `st` and it is the next dot. */
  lemma DotFromAt(s: string, st: nat, d: nat)
    requires st <= d <= |s| && (d < |s| ==> s[d] == '.')
    requires forall j :: st <= j < d ==> s[j] != '.'
    ensures DotFrom(s, st) == d
    decreases d - st
  {
    if st < d {
      DotFromAt(s, st + 1, d);
    }
  }

  lemma NoDotBetween(s: string, a: nat, b: nat)
    requires a <= b <= |s|
    requires forall j :: a <= j < b ==> s[j] != '.'
    ensures '.' !in s[a..b]
  {
    forall j | 0 <= j < b - a ensures s[a..b][j] != '.' {
      assert s[a..b][j] == s[a + j];
    }
  }

  /** No field contains the separator. */
  lemma {:induction false} FieldsHaveNoDot(s: string, st: nat)
    requires st <= |s|
    ensures forall i :: 0 <= i < |FieldsFrom(s, st)| ==> '.' !in FieldsFrom(s, st)[i]
    decreases |s| - st
  {
    var d := DotFrom(s, st);
    var f := FieldsFrom(s, st);
    NoDotBetween(s, st, d);
    if d < |s| {
      FieldsStep(s, st);
      FieldsHaveNoDot(s, d + 1);
      forall i | 0 <= i < |f| ensures '.' !in f[i] {
        if i > 0 {
          assert f[i] == FieldsFrom(s, d + 1)[i - 1];
        }
      }
    } else {
      FieldsLast(s, st);
      assert s[st..] == s[st..d];
    }
  }

  /** There is one field more than there are dots. */
  lemma {:induction false} FieldCount(s: string, st: nat)
    requires st <= |s|
    ensures |FieldsFrom(s, st)| == multiset(s[st..])['.'] + 1
    decreases |s| - st
  {
    var d := DotFrom(s, st);
    if d < |s| {
      FieldsStep(s, st);
      FieldCount(s, d + 1);
      DotsFrom(s, st, d);
    } else {
      FieldsLast(s, st);
      DotsFrom(s, st, d);
    }
  }

  /** Counting the dots of `s[st..]` from its first one, at `d`. */
  lemma DotsFrom(s: string, st: nat, d: nat)
    requires st <= d <= |s| && (d < |s| ==> s[d] == '.')
    requires forall j :: st <= j < d ==> s[j] != '.'
    ensures d < |s| ==> multiset(s[st..])['.'] == multiset(s[d + 1..])['.'] + 1
    ensures d == |s| ==> multiset(s[st..])['.'] == 0
  {
    NoDotBetween(s, st, d);
    if d < |s| {
      assert s[st..] == s[st..d] + [s[d]] + s[d + 1..];
    } else {
      assert s[st..] == s[st..d];
    }
  }

  /** The fields joined back together with '.' between them. */
  function JoinDots(fields: seq<string>): string
    requires |fields| >= 1
  {
    if |fields| == 1 then fields[0] else fields[0] + "." + JoinDots(fields[1..])
  }

  /** Joining the fields with dots gives back the string. */
  lemma {:induction false} FieldsJoin(s: string, st: nat)
    requires st <= |s|
    ensures JoinDots(FieldsFrom(s, st)) == s[st..]
    decreases |s| - st
  {
    var d := DotFrom(s, st);
    if d < |s| {
      FieldsJoin(s, d + 1);
      FieldsStep(s, st);
      JoinDotsCons(s[st..d], FieldsFrom(s, d + 1));
      SplitAt(s, st, d);
    } else {
      FieldsLast(s, st);
    }
  }

  lemma SplitAt(s: string, st: nat, d: nat)
    requires st <= d < |s| && s[d] == '.'
    ensures s[st..] == s[st..d] + "." + s[d + 1..]
  {
  }

  lemma JoinDotsCons(head: string, tail: seq<string>)
    requires |tail| >= 1
    ensures JoinDots([head] + tail) == head + "." + JoinDots(tail)
  {
    assert ([head] + tail)[1..] == tail;
  }

  /** An octet group inside `s` holds no dot. */
  lemma OctetNoDot(s: string, a: nat, b: nat)
    requires a <= b <= |s| && IsOctetGroup(s[a..b])
    ensures forall j :: a <= j < b ==> s[j] != '.'
  {
    forall j | a <= j < b ensures s[j] != '.' {
      assert s[j] == s[a..b][j - a];
      assert IsDigit(s[a..b][j - a]);
    }
  }

  /** The fields condition: `k + 1` fields, every one of 1 to 3 digits. */
  predicate GroupFields(s: string, st: nat, k: nat)
    requires st <= |s|
  {
    var f := FieldsFrom(s, st);
    |f| == k + 1 && forall i :: 0 <= i <= k ==> IsOctetGroup(f[i])
  }

  /** Taking one group and its dot off the front. */
  lemma GroupFieldsStep(s: string, st: nat, n: nat, k: nat)
    requires 1 <= n && st + n < |s| && s[st + n] == '.' && IsOctetGroup(s[st..st + n]) && k > 0
    ensures GroupFields(s, st, k) <==> GroupFields(s, st + n + 1, k - 1)
  {
    OctetNoDot(s, st, st + n);
    DotFromAt(s, st, st + n);
    FieldsStep(s, st);
    var f := FieldsFrom(s, st);
    assert f[1..] == FieldsFrom(s, st + n + 1);
  }

  /** Matching the regular expression, read group by group. */
  lemma {:induction false} DottedGroupsToFields(s: string, st: nat, k: nat)
    requires st <= |s| && DottedGroups(s, st, k)
    ensures GroupFields(s, st, k)
    decreases k
  {
    if k == 0 {
      LastGroup(s, st);
    } else {
      var n := FirstGroup(s, st, k);
      DottedGroupsToFields(s, st + n + 1, k - 1);
      GroupFieldsStep(s, st, n, k);
    }
  }

  lemma LastGroup(s: string, st: nat)
    requires st <= |s| && IsOctetGroup(s[st..])
    ensures GroupFields(s, st, 0)
  {
    assert s[st..] == s[st..|s|];
    OctetNoDot(s, st, |s|);
    DotFromAt(s, st, |s|);
    FieldsLast(s, st);
  }

  /** The width of the first group of a match with `k > 0` dots. */
  lemma FirstGroup(s: string, st: nat, k: nat) returns (n: nat)
    requires st <= |s| && k > 0 && DottedGroups(s, st, k)
    ensures 1 <= n <= 3 && st + n < |s| && IsOctetGroup(s[st..st + n]) && s[st + n] == '.'
    ensures DottedGroups(s, st + n + 1, k - 1)
  {
    n :| n <= 3 && GroupThenDot(s, st, n, k);
  }

  lemma {:induction false} FieldsToDottedGroups(s: string, st: nat, k: nat)
    requires st <= |s| && GroupFields(s, st, k)
    ensures DottedGroups(s, st, k)
    decreases k
  {
    var d := DotFrom(s, st);
    if d == |s| {
      SingleGroup(s, st, k);
    } else {
      FirstOfGroups(s, st, k);
      GroupFieldsStep(s, st, d - st, k);
      FieldsToDottedGroups(s, d + 1, k - 1);
      DottedGroupsIntro(s, st, d - st, k);
    }
  }

  lemma SingleGroup(s: string, st: nat, k: nat)
    requires st <= |s| && GroupFields(s, st, k) && DotFrom(s, st) == |s|
    ensures k == 0 && DottedGroups(s, st, k)
  {
    FieldsLast(s, st);
    assert IsOctetGroup(FieldsFrom(s, st)[0]);
  }

  lemma FirstOfGroups(s: string, st: nat, k: nat)
    requires st <= |s| && GroupFields(s, st, k) && DotFrom(s, st) < |s|
    ensures k > 0 && st < DotFrom(s, st) && IsOctetGroup(s[st..DotFrom(s, st)])
  {
    FieldsStep(s, st);
    assert FieldsFrom(s, st)[0] == s[st..DotFrom(s, st)];
  }

  lemma DottedGroupsIntro(s: string, st: nat, n: nat, k: nat)
    requires k > 0 && 1 <= n <= 3 && st + n < |s| && IsOctetGroup(s[st..st + n]) && s[st + n] == '.'
    requires DottedGroups(s, st + n + 1, k - 1)
    ensures DottedGroups(s, st, k)
  {
    assert GroupThenDot(s, st, n, k);
  }

  /** The shape the regular expression describes, stated through fields:
      `k + 1` dot-separated fields, every one of 1 to 3 digits. */
  lemma DottedGroupsAreFields(s: string, st: nat, k: nat)
    requires st <= |s|
    ensures DottedGroups(s, st, k) <==> GroupFields(s, st, k)
  {
    if DottedGroups(s, st, k) {
      DottedGroupsToFields(s, st, k);
    }
    if GroupFields(s, st, k) {
      FieldsToDottedGroups(s, st, k);
    }
  }

  /** `isValidIP` accepts exactly four dot-separated groups of 1 to 3 ASCII
      digits. `Fields` is the split of `s` at its dots: `FieldsJoin` joins
      the fields back into `s`, and `FieldsHaveNoDot` shows no field holds a
      dot. */
  lemma ValidIPIsFourGroups(s: string)
    ensures IsValidIP(s) <==>
              |Fields(s)| == 4 && forall i :: 0 <= i < 4 ==> IsOctetGroup(Fields(s)[i])
  {
    DottedGroupsAreFields(s, 0, 3);
  }

  /** Four octet groups joined by dots are accepted. */
  lemma DottedQuadAccepted(a: string, b: string, c: string, d: string)
    requires IsOctetGroup(a) && IsOctetGroup(b) && IsOctetGroup(c) && IsOctetGroup(d)
    ensures IsValidIP(a + "." + b + "." + c + "." + d)
  {
    assert d[0..] == d;
    GroupCons(c, d, 1);
    GroupCons(b, c + "." + d, 2);
    GroupCons(a, b + "." + (c + "." + d), 3);
    Regroup(a + ".", b + ".", c + "." + d);
    Regroup(a + ".", b, ".");
    Regroup(a + "." + b + ".", c + ".", d);
    Regroup(a + "." + b + ".", c, ".");
  }

  lemma Regroup(x: string, y: string, z: string)
    ensures x + (y + z) == x + y + z
  {
  }

  /** A group and a dot in front of a match of `k - 1` repetitions. */
  lemma GroupCons(g: string, rest: string, k: nat)
    requires IsOctetGroup(g) && k > 0 && DottedGroups(rest, 0, k - 1)
    ensures DottedGroups(g + "." + rest, 0, k)
  {
    var s := g + "." + rest;
    assert s == (g + ".") + rest;
    DottedGroupsShift(g + ".", rest, 0, k - 1);
    assert s[0..|g|] == g;
    DottedGroupsIntro(s, 0, |g|, k);
  }

  /** Whether a match starts at `i` does not depend on what precedes it. */
  lemma {:induction false} DottedGroupsShift(p: string, t: string, i: nat, k: nat)
    requires i <= |t|
    ensures DottedGroups(p + t, |p| + i, k) <==> DottedGroups(t, i, k)
    decreases k, 1
  {
    var s := p + t;
    if k == 0 {
      assert s[|p| + i..] == t[i..];
    } else {
      if DottedGroups(s, |p| + i, k) {
        var n := FirstGroup(s, |p| + i, k);
        ShiftGroup(p, t, i, n, k);
      }
      if DottedGroups(t, i, k) {
        var n := FirstGroup(t, i, k);
        ShiftGroup(p, t, i, n, k);
      }
    }
  }

  lemma ShiftGroup(p: string, t: string, i: nat, n: nat, k: nat)
    requires i <= |t| && k > 0
    ensures GroupThenDot(p + t, |p| + i, n, k) <==> GroupThenDot(t, i, n, k)
    decreases k, 0
  {
    var s := p + t;
    if 1 <= n <= 3 && i + n < |t| {
      assert s[|p| + i..|p| + i + n] == t[i..i + n];
      assert s[|p| + i + n] == t[i + n];
      DottedGroupsShift(p, t, i + n + 1, k - 1);
    }
  }

  /** No octet range check: 999.999.999.999 is accepted. */
  lemma LargeOctetsAccepted()
    ensures IsValidIP("999.999.999.999")
  {
    DottedQuadAccepted("999", "999", "999", "999");
    assert "999" + "." + "999" + "." + "999" + "." + "999" == "999.999.999.999";
  }

  /** An address has as many groups as it has dots plus one, so three groups
      (`1.2.3`) or five (`1.2.3.4.5`) are rejected. */
  lemma WrongGroupCountRejected(s: string)
    requires multiset(s)['.'] != 3
    ensures !IsValidIP(s)
  {
    FieldCount(s, 0);
    assert s[0..] == s;
    ValidIPIsFourGroups(s);
  }

  /** `1.2.3` is rejected. */
  lemma ThreeGroupsRejected(a: string, b: string, c: string)
    requires IsOctetGroup(a) && IsOctetGroup(b) && IsOctetGroup(c)
    ensures !IsValidIP(a + "." + b + "." + c)
  {
    OctetDots(a);
    OctetDots(b);
    OctetDots(c);
    WrongGroupCountRejected(a + "." + b + "." + c);
  }

  /** `1.2.3.4.5` is rejected. */
  lemma FiveGroupsRejected(a: string, b: string, c: string, d: string, e: string)
    requires IsOctetGroup(a) && IsOctetGroup(b) && IsOctetGroup(c) && IsOctetGroup(d) && IsOctetGroup(e)
    ensures !IsValidIP(a + "." + b + "." + c + "." + d + "." + e)
  {
    OctetDots(a);
    OctetDots(b);
    OctetDots(c);
    OctetDots(d);
    OctetDots(e);
    WrongGroupCountRejected(a + "." + b + "." + c + "." + d + "." + e);
  }

  lemma OctetDots(g: string)
    requires IsOctetGroup(g)
    ensures multiset(g)['.'] == 0
  {
    assert g[0..|g|] == g;
    OctetNoDot(g, 0, |g|);
  }

  // ---------------------------------------------------------------------
  // Domain
  // ---------------------------------------------------------------------

  /** `[a-zA-Z0-9.-]`. */
  predicate IsDomainChar(c: char) {
    IsLetter(c) || IsDigit(c) || c == '.' || c == '-'
  }

  /** The regular expression split at index `i`: `s[..i]` matches
      `[a-zA-Z0-9.-]+`, `s[i]` is the escaped dot, and `s[i + 1..]` matches
      `[a-zA-Z]{2,6}`. */
  predicate DomainSplitAt(s: string, i: int) {
    && 1 <= i < |s|
    && (forall j :: 0 <= j < i ==> IsDomainChar(s[j]))
    && s[i] == '.'
    && 2 <= |s| - i - 1 <= 6
    && (forall j :: i < j < |s| ==> IsLetter(s[j]))
  }

  /** `PingService.isValidDomain`: some split of `s` matches the pattern. */
  predicate IsValidDomain(s: string) {
    exists i | 0 <= i < |s| :: DomainSplitAt(s, i)
  }

  /** Index of the last '.' before `n`, or -1 when there is none. */
  function DotBefore(s: string, n: nat): (i: int)
    requires n <= |s|
    ensures -1 <= i < n
    ensures i >= 0 ==> s[i] == '.'
    ensures forall j :: i < j < n ==> s[j] != '.'
  {
    if n == 0 then -1
    else if s[n - 1] == '.' then n - 1
    else DotBefore(s, n - 1)
  }

  /** Index of the last '.' in `s`, or -1 when there is none. */
  function LastDot(s: string): (i: int)
    ensures -1 <= i < |s|
    ensures i >= 0 ==> s[i] == '.'
    ensures forall j :: i < j < |s| ==> s[j] != '.'
  {
    DotBefore(s, |s|)
  }

  /** The escaped dot of the domain pattern is necessarily the last dot of
      the string, because the suffix after it is letters only. */
  lemma DomainSeparatorIsLastDot(s: string, i: int)
    requires DomainSplitAt(s, i)
    ensures i == LastDot(s)
  {
    assert forall j :: i < j < |s| ==> s[j] != '.' by {
      forall j | i < j < |s| ensures s[j] != '.' {
        assert IsLetter(s[j]);
      }
    }
  }

  /** `isValidDomain` decided by looking only at the last dot: non-empty text
      over `[a-zA-Z0-9.-]` before it and 2 to 6 ASCII letters after it. */
  lemma ValidDomainByLastDot(s: string)
    ensures IsValidDomain(s) <==> DomainSplitAt(s, LastDot(s))
  {
    if IsValidDomain(s) {
      var i :| 0 <= i < |s| && DomainSplitAt(s, i);
      DomainSeparatorIsLastDot(s, i);
    }
  }

  lemma DomainExamples()
    ensures IsValidDomain("google.com")
    ensures !IsValidDomain("example.c")
  {
    assert DomainSplitAt("google.com", 6);
    assert "example.c"[7] == '.';
    ValidDomainByLastDot("example.c");
  }

  /** A name without a dot, such as `localhost`, is not a domain. */
  lemma DotlessRejected(s: string)
    requires '.' !in s
    ensures !IsValidDomain(s)
  {
    ValidDomainByLastDot(s);
  }

  // ---------------------------------------------------------------------
  // The two patterns together
  // ---------------------------------------------------------------------

  lemma {:induction false} DottedGroupsEnds(s: string, st: nat, k: nat)
    requires st <= |s| && DottedGroups(s, st, k)
    ensures st < |s| && IsDigit(s[st]) && IsDigit(s[|s| - 1])
    decreases k
  {
    if k == 0 {
      assert s[st..][0] == s[st];
      assert s[st..][|s| - st - 1] == s[|s| - 1];
    } else {
      var n := FirstGroup(s, st, k);
      DottedGroupsEnds(s, st + n + 1, k - 1);
      assert s[st..st + n][0] == s[st];
    }
  }

  /** A dotted quad is never a domain: it ends in a digit, a domain in a letter. */
  lemma IPIsNotDomain(s: string)
    requires IsValidIP(s)
    ensures !IsValidDomain(s)
  {
    DottedGroupsEnds(s, 0, 3);
  }

  /** Both patterns only match strings that begin and end with a character
      above U+0020, so every accepted host is already trimmed. */
  lemma AcceptedHostIsTrimmed(s: string)
    requires IsValidIP(s) || IsValidDomain(s)
    ensures Trim(s) == s
  {
    if IsValidIP(s) {
      DottedGroupsEnds(s, 0, 3);
    } else {
      var i :| 0 <= i < |s| && DomainSplitAt(s, i);
      assert IsDomainChar(s[0]) && IsLetter(s[|s| - 1]);
    }
    TrimNoPadding(s);
  }
}
