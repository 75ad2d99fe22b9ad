/** `NStringPredicates`: null-safe tests on possibly-null strings. Every
    predicate is `false` on `null` except `isBlank()`, which is `true`. */
module StringPredicates {
  import opened Wrappers
  import opened Predicates
  import opened Seqs

  // ---------------------------------------------------------------------
  // The java.lang.String operations the predicates call

  /** `String.trim()` treats every char up to U+0020 as whitespace. */
  predicate IsTrimmable(c: char)
  {
    c <= ' '
  }

  /** The leading-whitespace loop of `trim()`. */
  function TrimStart(s: string): (r: string)
    ensures |r| <= |s| && r == s[|s| - |r|..]
    ensures forall i :: 0 <= i < |s| - |r| ==> IsTrimmable(s[i])
    ensures r == [] || !IsTrimmable(r[0])
  {
    if |s| > 0 && IsTrimmable(s[0]) then TrimStart(s[1..]) else s
  }

  /** The trailing-whitespace loop of `trim()`. */
  function TrimEnd(s: string): (r: string)
    ensures |r| <= |s| && r == s[..|r|]
    ensures forall i :: |r| <= i < |s| ==> IsTrimmable(s[i])
    ensures r == [] || !IsTrimmable(r[|r| - 1])
  {
    if |s| > 0 && IsTrimmable(s[|s| - 1]) then TrimEnd(s[..|s| - 1]) else s
  }

  /** `String.trim()`: the string without leading and trailing chars up to
      U+0020; it is empty exactly when every char is such whitespace. */
  function Trim(s: string): (r: string)
    ensures |r| <= |s|
    ensures r == [] <==> forall i :: 0 <= i < |s| ==> IsTrimmable(s[i])
    ensures r != [] ==> !IsTrimmable(r[0]) && !IsTrimmable(r[|r| - 1])
  {
    var front := TrimStart(s);
    var r := TrimEnd(front);
    assert r != [] ==> !IsTrimmable(s[|s| - |front|]) by {
      if r != [] {
        assert r[0] == front[0];
      }
    }
    r
  }

  /** `sub` occurs in `s` starting at index `i`. */
  ghost predicate OccursAt(s: string, sub: string, i: int)
  {
    0 <= i && i + |sub| <= |s| && s[i..i + |sub|] == sub
  }

  /** `String.contains(sub)`: `indexOf(sub) >= 0`, searching from the left. */
  predicate HasSubstring(s: string, sub: string)
    ensures HasSubstring(s, sub) <==> exists i :: OccursAt(s, sub, i)
    decreases |s|
  {
    if sub <= s then
      assert OccursAt(s, sub, 0);
      true
    else if |s| == 0 then
      assert forall i :: !OccursAt(s, sub, i);
      false
    else
      var rest := HasSubstring(s[1..], sub);
      assert forall i :: OccursAt(s[1..], sub, i) ==> OccursAt(s, sub, i + 1) by {
        forall i | OccursAt(s[1..], sub, i) ensures OccursAt(s, sub, i + 1) {
          assert s[1..][i..i + |sub|] == s[i + 1..i + 1 + |sub|];
        }
      }
      assert forall i :: OccursAt(s, sub, i) && i > 0 ==> OccursAt(s[1..], sub, i - 1) by {
        forall i | OccursAt(s, sub, i) && i > 0 ensures OccursAt(s[1..], sub, i - 1) {
          assert s[1..][i - 1..i - 1 + |sub|] == s[i..i + |sub|];
        }
      }
      assert !OccursAt(s, sub, 0);
      rest
  }

  /** `reduce(true, Boolean::logicalAnd)` over `s.contains(sub)` for each
      `sub`. */
  function ContainsEvery(s: string, subs: seq<string>): (r: bool)
    ensures r <==> forall i :: 0 <= i < |subs| ==> HasSubstring(s, subs[i])
  {
    if |subs| == 0 then true
    else ContainsEvery(s, subs[..|subs| - 1]) && HasSubstring(s, subs[|subs| - 1])
  }

  /** `anyMatch(s::contains)` over `subs`. */
  function ContainsSomeOf(s: string, subs: seq<string>): (r: bool)
    ensures r <==> exists i :: 0 <= i < |subs| && HasSubstring(s, subs[i])
  {
    if |subs| == 0 then false
    else ContainsSomeOf(s, subs[..|subs| - 1]) || HasSubstring(s, subs[|subs| - 1])
  }

  // ---------------------------------------------------------------------
  // The predicates

  /** `startsWith(prefix)`. */
  function StartsWith(prefix: string): (r: Pred<Option<string>>)
    ensures forall o :: r(o) <==> o.Some? && |prefix| <= |o.value| && o.value[..|prefix|] == prefix
  {
    And(NotNull(), OnValue((s: string) => prefix <= s))
  }

  /** `endsWith(suffix)`. */
  function EndsWith(suffix: string): (r: Pred<Option<string>>)
    ensures forall o :: r(o) <==> o.Some? && |suffix| <= |o.value| && o.value[|o.value| - |suffix|..] == suffix
  {
    And(NotNull(), OnValue((s: string) => |suffix| <= |s| && s[|s| - |suffix|..] == suffix))
  }

  /** `isBlank()`: `isNull().or(s -> s.trim().isEmpty())`. */
  function IsBlank(): (r: Pred<Option<string>>)
    ensures forall o :: r(o) <==> o.None? || forall i :: 0 <= i < |o.value| ==> IsTrimmable(o.value[i])
  {
    Or(IsNull(), OnValue((s: string) => Trim(s) == []))
  }

  /** `notBlank()`: `not(isBlank())`. */
  function NotBlank(): (r: Pred<Option<string>>)
    ensures forall o :: r(o) <==> o.Some? && exists i :: 0 <= i < |o.value| && !IsTrimmable(o.value[i])
  {
    Not(IsBlank())
  }

  /** `containsAll(String... substrings)`: `null` substrings are filtered
      out before the fold. */
  function ContainsAll(subs: seq<Option<string>>): (r: Pred<Option<string>>)
    ensures forall o :: r(o) <==> o.Some? && forall sub :: Some(sub) in subs ==> HasSubstring(o.value, sub)
  {
    And(NotNull(), OnValue((s: string) => ContainsEvery(s, Somes(subs))))
  }

  /** `containsAny(String... substrings)`: `null` substrings are filtered
      out before `anyMatch`. */
  function ContainsAny(subs: seq<Option<string>>): (r: Pred<Option<string>>)
    ensures forall o :: r(o) <==> o.Some? && exists sub :: Some(sub) in subs && HasSubstring(o.value, sub)
  {
    And(NotNull(), OnValue((s: string) => ContainsSomeOf(s, Somes(subs))))
  }

  /** `contains(substring)`: `containsAll(substring)`; the varargs array
      has the one, possibly `null`, element. */
  function Contains(sub: Option<string>): (r: Pred<Option<string>>)
    ensures forall o :: r(o) <==> o.Some? && (sub.Some? ==> HasSubstring(o.value, sub.value))
  {
    ContainsAll([sub])
  }

  /** `doesNotContainAnyOf(String... substrings)`:
      `not(containsAny(substrings)).and(notNull())`. */
  function DoesNotContainAnyOf(subs: seq<Option<string>>): (r: Pred<Option<string>>)
    ensures forall o :: r(o) <==> o.Some? && forall sub :: Some(sub) in subs ==> !HasSubstring(o.value, sub)
  {
    And(Not(ContainsAny(subs)), NotNull())
  }

  /** `doesNotContain(substring)`: `doesNotContainAnyOf(substring)`. */
  function DoesNotContain(sub: Option<string>): (r: Pred<Option<string>>)
    ensures forall o :: r(o) <==> o.Some? && (sub.Some? ==> !HasSubstring(o.value, sub.value))
  {
    DoesNotContainAnyOf([sub])
  }

  // ---------------------------------------------------------------------
  // Laws

  /** `startsWith` and `endsWith` reject `null` and are otherwise the
      prefix and suffix tests. */
  lemma AffixTestsRejectNull(p: string, s: string)
    ensures !StartsWith(p)(None) && !EndsWith(p)(None)
    ensures StartsWith(p)(Some(s)) <==> p <= s
    ensures StartsWith(p)(Some(p + s)) && EndsWith(p)(Some(s + p))
  {
    assert (s + p)[|s + p| - |p|..] == p;
  }

  /** `isBlank()` accepts `null` and exactly the strings whose `trim()` is
      empty; `notBlank()` is its complement, so it rejects `null`. */
  lemma BlankTests(s: string)
    ensures IsBlank()(None) && !NotBlank()(None)
    ensures IsBlank()(Some(s)) <==> Trim(s) == []
    ensures NotBlank()(Some(s)) <==> !IsBlank()(Some(s))
    ensures IsBlank()(Some(""))
  {
    BlankOnNull();
    BlankIffTrimEmpty(s);
    NotBlankComplement(s);
  }

  /** `null` and the empty string are blank. */
  lemma BlankOnNull()
    ensures IsBlank()(None) && !NotBlank()(None)
    ensures IsBlank()(Some(""))
  {
  }

  /** A non-null string is blank exactly when it trims to empty. */
  lemma BlankIffTrimEmpty(s: string)
    ensures IsBlank()(Some(s)) <==> Trim(s) == []
  {
  }

  /** `notBlank()` negates `isBlank()` on a non-null string. */
  lemma NotBlankComplement(s: string)
    ensures NotBlank()(Some(s)) <==> !IsBlank()(Some(s))
  {
  }

  /** A string with a visible character is not blank. */
  lemma VisibleCharIsNotBlank(s: string, i: int)
    requires 0 <= i < |s| && s[i] > ' '
    ensures NotBlank()(Some(s))
  {
  }

  /** Without substrings to look for, `containsAll` accepts every non-null
      string and `containsAny` rejects everything; `null` entries count as
      absent, so `contains(null)` accepts every non-null string. */
  lemma DegenerateSubstringLists(s: string)
    ensures ContainsAll([])(Some(s)) && !ContainsAll([])(None)
    ensures !ContainsAny([])(Some(s))
    ensures ContainsAll([None])(Some(s)) && !ContainsAny([None])(Some(s))
    ensures Contains(None)(Some(s))
  {
  }

  /** `contains(sub)` is `containsAll(sub)`: non-null and a substring. */
  lemma ContainsIsSingletonContainsAll(sub: string, o: Option<string>)
    ensures Contains(Some(sub))(o) == ContainsAll([Some(sub)])(o)
    ensures Contains(Some(sub))(o) <==> o.Some? && HasSubstring(o.value, sub)
  {
  }

  /** `doesNotContainAnyOf(subs)` is `containsAny(subs)` negated on non-null
      strings; `doesNotContain(sub)` is its one-element case. */
  lemma DoesNotContainNegatesContainsAny(subs: seq<Option<string>>, sub: Option<string>, o: Option<string>)
    ensures DoesNotContainAnyOf(subs)(o) <==> o.Some? && !ContainsAny(subs)(o)
    ensures DoesNotContain(sub)(o) == DoesNotContainAnyOf([sub])(o)
    ensures !DoesNotContainAnyOf(subs)(None)
  {
  }

  /** The string scenario of the library's documentation, on "foobar". */
  lemma FoobarScenario()
    ensures StartsWith("foo")(Some("foobar"))
    ensures DoesNotContain(Some("baz"))(Some("foobar"))
    ensures IsBlank()(None) && !IsBlank()(Some("foobar"))
  {
    var s := "foobar";
    assert StartsWith("foo")(Some(s)) by {
      assert s[..3] == "foo";
    }
    assert DoesNotContain(Some("baz"))(Some(s)) by {
      NoBazInFoobar();
    }
    assert !IsBlank()(Some(s)) by {
      assert !IsTrimmable(s[0]);
    }
  }

  /** `"baz"` occurs nowhere in `"foobar"`, since no `'z'` does. */
  lemma NoBazInFoobar()
    ensures !HasSubstring("foobar", "baz")
  {
    var s := "foobar";
    forall i | 0 <= i && i + 3 <= |s| ensures !OccursAt(s, "baz", i) {
      assert s[i..i + 3][2] == s[i + 2] != 'z';
    }
  }
}
