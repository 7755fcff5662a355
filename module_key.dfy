/**
 * Recognising module declaration keys. The extension looks for the pattern
 *   com\.graphaware\.module\.([a-zA-Z0-9]{1,})\.([0-9]{1,})
 * with Matcher.find(): the pattern may occur anywhere in a key, the leftmost occurrence wins,
 * and both groups are greedy. Group 1 is the module id, group 2 the registration order.
 */
module ModuleKey {
  import opened Wrappers

  /** The namespace of module settings (MODULE_CONFIG_KEY). */
  const ModuleConfigKey: string := "com.graphaware.module"

  /** The literal text the declaration pattern starts with. */
  const DeclPrefix: string := ModuleConfigKey + "."

  /** Largest value of a Java int; Integer.valueOf rejects anything larger. */
  const MaxInt: int := 0x7fff_ffff

  predicate IsAlnum(c: char) {
    'a' <= c <= 'z' || 'A' <= c <= 'Z' || '0' <= c <= '9'
  }

  predicate IsDigit(c: char) {
    '0' <= c <= '9'
  }

  predicate AllAlnum(s: string) {
    forall k :: 0 <= k < |s| ==> IsAlnum(s[k])
  }

  predicate AllDigits(s: string) {
    forall k :: 0 <= k < |s| ==> IsDigit(s[k])
  }

  /** A successful find(): where the occurrence starts, group 1 and group 2. */
  datatype Match = Match(start: nat, id: string, digits: string)

  /** The text an occurrence with these groups spans. */
  function DeclText(id: string, digits: string): string {
    DeclPrefix + id + "." + digits
  }

  /** The end of the longest run of letters and digits that starts at `i`. */
  function AlnumEnd(s: string, i: nat): (j: nat)
    requires i <= |s|
    ensures i <= j <= |s|
    ensures forall k :: i <= k < j ==> IsAlnum(s[k])
    ensures j == |s| || !IsAlnum(s[j])
    decreases |s| - i
  {
    if i < |s| && IsAlnum(s[i]) then AlnumEnd(s, i + 1) else i
  }

  /** The end of the longest run of decimal digits that starts at `i`. */
  function DigitEnd(s: string, i: nat): (j: nat)
    requires i <= |s|
    ensures i <= j <= |s|
    ensures forall k :: i <= k < j ==> IsDigit(s[k])
    ensures j == |s| || !IsDigit(s[j])
    decreases |s| - i
  {
    if i < |s| && IsDigit(s[i]) then DigitEnd(s, i + 1) else i
  }

  /**
   * The pattern tried at position `i`, as a backtracking engine tries it. Group 1 takes the
   * longest alphanumeric run; giving characters back cannot help, since the character after a
   * shorter run is alphanumeric and not the '.' the pattern needs next. Group 2 takes the
   * longest digit run and nothing follows it in the pattern.
   */
  function MatchAt(s: string, i: nat): (r: Option<Match>)
    requires i <= |s|
    ensures r.Some? ==> r.value.start == i
    ensures r.Some? ==> |r.value.id| > 0 && AllAlnum(r.value.id)
    ensures r.Some? ==> |r.value.digits| > 0 && AllDigits(r.value.digits)
  {
    var a := i + |DeclPrefix|;
    if a <= |s| && s[i..a] == DeclPrefix then
      var b := AlnumEnd(s, a);
      if a < b < |s| && s[b] == '.' then
        var c := DigitEnd(s, b + 1);
        if b + 1 < c then Some(Match(i, s[a..b], s[b + 1..c])) else None
      else None
    else None
  }

  /** Matcher.find() from position `i`: the first position, from `i` on, where the pattern matches. */
  function FindFrom(s: string, i: nat): Option<Match>
    requires i <= |s|
    decreases |s| - i
  {
    if MatchAt(s, i).Some? then MatchAt(s, i)
    else if i == |s| then None
    else FindFrom(s, i + 1)
  }

  /** What find() reports is the match at a position from `i` on. */
  lemma {:induction false} FindFromFound(s: string, i: nat)
    requires i <= |s|
    ensures FindFrom(s, i).Some? ==>
      i <= FindFrom(s, i).value.start <= |s| && MatchAt(s, FindFrom(s, i).value.start) == FindFrom(s, i)
    decreases |s| - i
  {
    if MatchAt(s, i).None? && i < |s| {
      FindFromFound(s, i + 1);
    }
  }

  /** MODULE_ENABLED_KEY.matcher(key).find(), with its two groups. */
  function FindDecl(key: string): (r: Option<Match>)
    ensures r.Some? ==> |r.value.id| > 0 && AllAlnum(r.value.id)
    ensures r.Some? ==> |r.value.digits| > 0 && AllDigits(r.value.digits)
  {
    FindFromFound(key, 0);
    FindFrom(key, 0)
  }

  /** Whether a key declares a module. */
  predicate IsDeclaration(key: string) {
    FindDecl(key).Some?
  }

  /**
   * Reference meaning of the pattern, without any matching strategy: the text at `i` is the
   * prefix, a non-empty alphanumeric id, a dot and a non-empty digit string.
   */
  ghost predicate MatchesAt(s: string, i: nat, id: string, digits: string) {
    && |id| > 0 && AllAlnum(id)
    && |digits| > 0 && AllDigits(digits)
    && i + |DeclText(id, digits)| <= |s|
    && s[i..i + |DeclText(id, digits)|] == DeclText(id, digits)
  }

  /** What MatchAt finds is an occurrence of the pattern, and its digit group cannot be extended. */
  lemma MatchAtSound(s: string, i: nat)
    requires i <= |s|
    ensures MatchAt(s, i).Some? ==>
      var m := MatchAt(s, i).value;
      var e := i + |DeclText(m.id, m.digits)|;
      && MatchesAt(s, i, m.id, m.digits)
      && (e == |s| || !IsDigit(s[e]))
  {
    if MatchAt(s, i).Some? {
      var m := MatchAt(s, i).value;
      var a := i + |DeclPrefix|;
      var b := AlnumEnd(s, a);
      var c := DigitEnd(s, b + 1);
      assert m.id == s[a..b] && m.digits == s[b + 1..c];
      DeclTextAt(s, i, b, c);
    }
  }

  /** The prefix at `i`, the text up to `b`, the dot at `b` and the text up to `c` spell DeclText. */
  lemma DeclTextAt(s: string, i: nat, b: nat, c: nat)
    requires i + |DeclPrefix| <= b < c <= |s|
    requires s[i..i + |DeclPrefix|] == DeclPrefix && s[b] == '.'
    ensures var t := DeclText(s[i + |DeclPrefix|..b], s[b + 1..c]);
      i + |t| == c && s[i..c] == t
  {
    var a := i + |DeclPrefix|;
    assert s[b..b + 1] == ".";
    SliceConcat(s, b, b + 1, c);
    SliceConcat(s, a, b, c);
    SliceConcat(s, i, a, c);
    assert s[i..c] == DeclPrefix + (s[a..b] + ("." + s[b + 1..c]));
  }

  /** Adjacent slices concatenate to the slice that spans both. */
  lemma SliceConcat(s: string, i: nat, j: nat, k: nat)
    requires i <= j <= k <= |s|
    ensures s[i..k] == s[i..j] + s[j..k]
  {
    assert forall n :: 0 <= n < k - i ==> s[i..k][n] == (s[i..j] + s[j..k])[n];
  }

  /** The four parts of a concatenation prefix + id + "." + digits, by position. */
  lemma ConcatParts(p: string, id: string, digits: string)
    ensures var t := p + id + "." + digits;
      && |t| == |p| + |id| + 1 + |digits|
      && t[..|p|] == p
      && t[|p|..|p| + |id|] == id
      && t[|p| + |id|] == '.'
      && t[|p| + |id| + 1..] == digits
  {
    var t := p + id + "." + digits;
    assert t == p + (id + ("." + digits));
    assert (id + ("." + digits))[..|id|] == id;
    assert ("." + digits)[1..] == digits;
  }

  /** A slice of a slice is a slice of the whole. */
  lemma SliceOfSlice(s: string, i: nat, c: nat, x: nat, y: nat)
    requires i <= c <= |s| && x <= y <= c - i
    ensures s[i..c][x..y] == s[i + x..i + y]
  {
    assert forall k :: 0 <= k < y - x ==> s[i..c][x..y][k] == s[i + x + k];
  }

  /** An occurrence of the declaration text, taken apart into prefix, id, dot and digits. */
  lemma DeclTextParts(s: string, i: nat, id: string, digits: string)
    requires i + |DeclText(id, digits)| <= |s|
    requires s[i..i + |DeclText(id, digits)|] == DeclText(id, digits)
    ensures var a := i + |DeclPrefix|;
      var b := a + |id|;
      && s[i..a] == DeclPrefix
      && s[a..b] == id
      && s[b] == '.'
      && s[b + 1..b + 1 + |digits|] == digits
  {
    var n := |DeclPrefix|;
    var a := i + n;
    var b := a + |id|;
    var c := b + 1 + |digits|;
    ConcatParts(DeclPrefix, id, digits);
    SliceOfSlice(s, i, c, 0, n);
    SliceOfSlice(s, i, c, n, n + |id|);
    SliceOfSlice(s, i, c, n + |id| + 1, c - i);
    var t := DeclText(id, digits);
    assert s[i..c] == t;
    assert s[i..a] == t[0..n] == DeclPrefix;
    assert s[a..b] == t[n..n + |id|] == id;
    assert s[b] == t[n + |id|] == '.';
    assert s[b + 1..c] == t[n + |id| + 1..c - i] == digits;
  }

  /** A run of letters and digits that ends at a character outside the class is the longest one. */
  lemma {:induction false} AlnumEndAt(s: string, a: nat, b: nat)
    requires a <= b < |s|
    requires forall k :: a <= k < b ==> IsAlnum(s[k])
    requires !IsAlnum(s[b])
    ensures AlnumEnd(s, a) == b
    decreases b - a
  {
    if a < b {
      AlnumEndAt(s, a + 1, b);
    }
  }

  /** The longest digit run from `a` reaches at least as far as any digit run from `a`. */
  lemma {:induction false} DigitEndReaches(s: string, a: nat, c: nat)
    requires a <= c <= |s|
    requires forall k :: a <= k < c ==> IsDigit(s[k])
    ensures c <= DigitEnd(s, a)
    decreases c - a
  {
    if a < c {
      DigitEndReaches(s, a + 1, c);
    }
  }

  /** Any occurrence of the pattern at `i` is found by MatchAt, with the same id and at least its digits. */
  lemma MatchAtComplete(s: string, i: nat, id: string, digits: string)
    requires i <= |s|
    requires MatchesAt(s, i, id, digits)
    ensures MatchAt(s, i).Some?
    ensures MatchAt(s, i).value.id == id
    ensures digits <= MatchAt(s, i).value.digits
  {
    var a := i + |DeclPrefix|;
    var b := a + |id|;
    var c := b + 1 + |digits|;
    DeclTextParts(s, i, id, digits);
    assert forall k :: a <= k < b ==> s[k] == id[k - a];
    AlnumEndAt(s, a, b);
    assert forall k :: b + 1 <= k < c ==> s[k] == digits[k - b - 1];
    DigitEndReaches(s, b + 1, c);
    var c' := DigitEnd(s, b + 1);
    SliceOfSlice(s, b + 1, c', 0, |digits|);
    assert s[b + 1..c'][..|digits|] == s[b + 1..c'][0..|digits|];
  }

  /**
   * find() from `i` passes over every position before the one it reports, and over every
   * position when it reports nothing: the pattern does not match there.
   */
  lemma {:induction false} FindFromSkips(s: string, i: nat, j: nat)
    requires i <= j <= |s|
    requires FindFrom(s, i).None? || j < FindFrom(s, i).value.start
    ensures MatchAt(s, j).None?
    decreases j - i
  {
    if i < j {
      assert FindFrom(s, i) == FindFrom(s, i + 1);
      FindFromSkips(s, i + 1, j);
    }
  }

  /**
   * A key is a declaration exactly when the pattern occurs somewhere in it. When it is, the
   * groups come from the leftmost occurrence, group 1 is the whole alphanumeric run and
   * group 2 the whole digit run; trailing text after the digits is allowed.
   */
  lemma FindDeclSpec(key: string)
    ensures IsDeclaration(key) <==> exists i, id, digits :: MatchesAt(key, i, id, digits)
    ensures IsDeclaration(key) ==>
      var m := FindDecl(key).value;
      var e := m.start + |DeclText(m.id, m.digits)|;
      && MatchesAt(key, m.start, m.id, m.digits)
      && (e == |key| || !IsDigit(key[e]))
      && (forall j: nat, id, digits :: j < m.start ==> !MatchesAt(key, j, id, digits))
      && (forall id, digits :: MatchesAt(key, m.start, id, digits) ==> id == m.id && digits <= m.digits)
  {
    if IsDeclaration(key) {
      var m := FindDecl(key).value;
      FindFromFound(key, 0);
      MatchAtSound(key, m.start);
      forall j: nat, id, digits | j < m.start
        ensures !MatchesAt(key, j, id, digits)
      {
        if MatchesAt(key, j, id, digits) {
          FindFromSkips(key, 0, j);
          MatchAtComplete(key, j, id, digits);
        }
      }
      forall id, digits | MatchesAt(key, m.start, id, digits)
        ensures id == m.id && digits <= m.digits
      {
        MatchAtComplete(key, m.start, id, digits);
      }
    } else {
      forall i, id, digits
        ensures !MatchesAt(key, i, id, digits)
      {
        if MatchesAt(key, i, id, digits) {
          FindFromSkips(key, 0, i);
          MatchAtComplete(key, i, id, digits);
        }
      }
    }
  }

  /**
   * com.graphaware.module.<id>.<digits> is a declaration of <id> with order <digits>, and stays
   * one whatever follows it, as long as the digit group does not continue.
   */
  lemma DeclarationWithTrailingText(id: string, digits: string, rest: string)
    requires |id| > 0 && AllAlnum(id)
    requires |digits| > 0 && AllDigits(digits)
    requires rest == [] || !IsDigit(rest[0])
    ensures FindDecl(DeclText(id, digits) + rest) == Some(Match(0, id, digits))
  {
    var key := DeclText(id, digits) + rest;
    var c := |DeclText(id, digits)|;
    assert key[0..c] == DeclText(id, digits);
    MatchAtComplete(key, 0, id, digits);
    MatchAtSound(key, 0);
    assert MatchAt(key, 0).value.digits == digits;
  }

  function DigitValue(c: char): nat
    requires IsDigit(c)
  {
    c as int - '0' as int
  }

  /** The decimal value of a digit string. */
  function DecimalValue(digits: string): nat
    requires AllDigits(digits)
    decreases |digits|
  {
    if digits == [] then 0
    else 10 * DecimalValue(digits[..|digits| - 1]) + DigitValue(digits[|digits| - 1])
  }

  function Pow10(n: nat): (p: nat)
    ensures p >= 1
  {
    if n == 0 then 1 else 10 * Pow10(n - 1)
  }

  /** A digit string of length n has a value below 10^n. */
  lemma {:induction false} DecimalValueBound(digits: string)
    requires AllDigits(digits)
    ensures DecimalValue(digits) < Pow10(|digits|)
    decreases |digits|
  {
    if digits != [] {
      DecimalValueBound(digits[..|digits| - 1]);
    }
  }

  /** Leading zeros do not change the value. */
  lemma {:induction false} LeadingZeroIgnored(digits: string)
    requires AllDigits(digits)
    ensures AllDigits("0" + digits)
    ensures DecimalValue("0" + digits) == DecimalValue(digits)
    decreases |digits|
  {
    var z := "0" + digits;
    if digits != [] {
      assert z[..|z| - 1] == "0" + digits[..|digits| - 1];
      LeadingZeroIgnored(digits[..|digits| - 1]);
    }
  }

  /**
   * Integer.valueOf on group 2, which is never empty: its decimal value, or None where Java
   * throws NumberFormatException because the value does not fit in an int.
   */
  function ParseOrder(digits: string): (r: Option<int>)
    requires |digits| > 0 && AllDigits(digits)
    ensures r.Some? <==> DecimalValue(digits) <= MaxInt
    ensures r.Some? ==> r.value == DecimalValue(digits)
  {
    var v := DecimalValue(digits);
    if v <= MaxInt then Some(v) else None
  }

  lemma {:induction false} Pow10Monotone(m: nat, n: nat)
    requires m <= n
    ensures Pow10(m) <= Pow10(n)
    decreases n - m
  {
    if m < n {
      Pow10Monotone(m, n - 1);
    }
  }

  /** Orders of up to nine digits, leading zeros included, always parse. */
  lemma ShortOrderParses(digits: string)
    requires AllDigits(digits) && 0 < |digits| <= 9
    ensures ParseOrder(digits).Some?
  {
    DecimalValueBound(digits);
    Pow10Monotone(|digits|, 9);
  }

  /** A key in which no character could start the prefix, from `i` on, has no occurrence there. */
  lemma {:induction false} NoOccurrenceWithoutPrefixStart(s: string, i: nat)
    requires i <= |s|
    requires forall j :: i <= j < |s| ==> s[j] != DeclPrefix[0]
    ensures FindFrom(s, i).None?
    decreases |s| - i
  {
    if i + |DeclPrefix| <= |s| {
      assert s[i..i + |DeclPrefix|][0] == s[i];
    }
    if i < |s| {
      NoOccurrenceWithoutPrefixStart(s, i + 1);
    }
  }

  /** Neither trailing letters nor a further path segment after the order digits stop a key from declaring a module. */
  lemma TrailingTextExamples()
    ensures FindDecl("com.graphaware.module.A.1x") == Some(Match(0, "A", "1"))
    ensures FindDecl("com.graphaware.module.A.1.extra") == Some(Match(0, "A", "1"))
  {
    assert DeclText("A", "1") + "x" == "com.graphaware.module.A.1x";
    DeclarationWithTrailingText("A", "1", "x");
    assert DeclText("A", "1") + ".extra" == "com.graphaware.module.A.1.extra";
    DeclarationWithTrailingText("A", "1", ".extra");
  }

  /** A module setting whose last segment is not a number is not a declaration. */
  lemma SettingKeyExample()
    ensures !IsDeclaration("com.graphaware.module.A.threshold")
  {
    var key := "com.graphaware.module.A.threshold";
    assert MatchAt(key, 0).None? by {
      assert AlnumEnd(key, 22) == 23;
      assert DigitEnd(key, 24) == 24;
    }
    NoOccurrenceWithoutPrefixStart(key, 1);
  }
}
