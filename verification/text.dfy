/** The string operations behind category names: JavaScript's `trim()`,
    `toLowerCase()` on ASCII letters, and the `[^a-z0-9]` strip that turns a
    name into a category id. */
module Text {
  import opened Seqs

  /** ECMAScript WhiteSpace and LineTerminator code points, which `trim()`
      removes. */
  const JsWhitespace: set<char> :=
    {'\t', '\n', '\U{B}', '\U{C}', '\r', ' ', '\U{A0}', '\U{1680}',
     '\U{2000}', '\U{2001}', '\U{2002}', '\U{2003}', '\U{2004}', '\U{2005}',
     '\U{2006}', '\U{2007}', '\U{2008}', '\U{2009}', '\U{200A}',
     '\U{2028}', '\U{2029}', '\U{202F}', '\U{205F}', '\U{3000}', '\U{FEFF}'}

  predicate IsJsWhitespace(c: char) {
    c in JsWhitespace
  }

  /** Where the leading whitespace of s ends, scanning forward from i. */
  function LeadingEnd(s: string, i: nat): (n: nat)
    requires i <= |s|
    ensures i <= n <= |s|
    ensures forall k :: i <= k < n ==> IsJsWhitespace(s[k])
    ensures n == |s| || !IsJsWhitespace(s[n])
    decreases |s| - i
  {
    if i < |s| && IsJsWhitespace(s[i]) then LeadingEnd(s, i + 1) else i
  }

  /** Where the trailing whitespace of s[lo..j] starts, scanning back from
      j. */
  function TrailingStart(s: string, lo: nat, j: nat): (n: nat)
    requires lo <= j <= |s|
    ensures lo <= n <= j
    ensures forall k :: n <= k < j ==> IsJsWhitespace(s[k])
    ensures n == lo || !IsJsWhitespace(s[n - 1])
  {
    if lo < j && IsJsWhitespace(s[j - 1]) then TrailingStart(s, lo, j - 1) else j
  }

  /** `s.trim()`: the leading whitespace is cut off, then the trailing
      whitespace of what remains. The result neither starts nor ends with
      whitespace, all that is cut off on either side is whitespace, and it
      is empty exactly when s is whitespace only. */
  function Trim(s: string): (r: string)
    ensures r == [] || (!IsJsWhitespace(r[0]) && !IsJsWhitespace(r[|r| - 1]))
    ensures var i := LeadingEnd(s, 0);
      i + |r| <= |s| && r == s[i..i + |r|] &&
      (forall k :: 0 <= k < i ==> IsJsWhitespace(s[k])) &&
      (forall k :: i + |r| <= k < |s| ==> IsJsWhitespace(s[k]))
    ensures r == [] <==> forall k :: 0 <= k < |s| ==> IsJsWhitespace(s[k])
  {
    var i := LeadingEnd(s, 0);
    s[i..TrailingStart(s, i, |s|)]
  }

  /** Trimming a string that neither starts nor ends with whitespace leaves
      it alone, so trimming twice is trimming once. */
  lemma TrimIdempotent(s: string)
    ensures Trim(Trim(s)) == Trim(s)
  {
  }

  /** An ASCII upper-case letter becomes the lower-case letter 32 code
      points above it; every other character is left alone. */
  function LowerChar(c: char): (d: char)
    ensures 'A' <= c <= 'Z' ==> 'a' <= d <= 'z' && d as int == c as int + 32
    ensures !('A' <= c <= 'Z') ==> d == c
    ensures !('A' <= d <= 'Z')
  {
    if 'A' <= c <= 'Z' then (c as int - 'A' as int + 'a' as int) as char else c
  }

  /** `toLowerCase()` on the ASCII letters: no upper-case letter remains,
      each one having become its lower-case letter, and every other
      character is unchanged. */
  function ToLower(s: string): (r: string)
    ensures |r| == |s| && forall i :: 0 <= i < |s| ==> r[i] == LowerChar(s[i])
    ensures forall i :: 0 <= i < |r| ==> !('A' <= r[i] <= 'Z')
    ensures forall i :: 0 <= i < |s| && 'A' <= s[i] <= 'Z' ==> r[i] as int == s[i] as int + 32
    ensures forall i :: 0 <= i < |s| && !('A' <= s[i] <= 'Z') ==> r[i] == s[i]
  {
    seq(|s|, i requires 0 <= i < |s| => LowerChar(s[i]))
  }

  /** Lower-casing is idempotent. */
  lemma ToLowerIdempotent(s: string)
    ensures ToLower(ToLower(s)) == ToLower(s)
  {
  }

  predicate IsSlugChar(c: char) {
    'a' <= c <= 'z' || '0' <= c <= '9'
  }

  /** `replace(/[^a-z0-9]/g, '')`. */
  function KeepSlugChars(s: string): (r: string)
    ensures |r| <= |s|
    ensures forall i :: 0 <= i < |r| ==> IsSlugChar(r[i])
  {
    if s == [] then []
    else (if IsSlugChar(s[0]) then [s[0]] else []) + KeepSlugChars(s[1..])
  }

  /** The strip keeps exactly the characters in `[a-z0-9]`, in order. */
  lemma {:induction false} KeepSlugCharsIsFilter(s: string)
    ensures KeepSlugChars(s) == Filter(s, IsSlugChar)
  {
    if s != [] {
      KeepSlugCharsIsFilter(s[1..]);
      FilterCons(s[0], s[1..], IsSlugChar);
      assert s == [s[0]] + s[1..];
    }
  }

  /** A category id: the lower-cased name with every character outside
      `[a-z0-9]` removed, the others kept in order. */
  function Slug(name: string): (id: string)
    ensures |id| <= |name|
    ensures forall i :: 0 <= i < |id| ==> IsSlugChar(id[i])
    ensures id == Filter(ToLower(name), IsSlugChar)
  {
    KeepSlugCharsIsFilter(ToLower(name));
    KeepSlugChars(ToLower(name))
  }

  /** Each character of `[a-z0-9]` occurs in the id as often as in the
      lower-cased name, and no other character occurs. */
  lemma SlugKeepsExactly(name: string)
    ensures forall c ::
      multiset(Slug(name))[c] == (if IsSlugChar(c) then multiset(ToLower(name))[c] else 0)
  {
    forall c
      ensures multiset(Slug(name))[c] == if IsSlugChar(c) then multiset(ToLower(name))[c] else 0
    {
      FilterMultiset(ToLower(name), IsSlugChar, c);
    }
  }

  /** The id of a concatenation is the concatenation of the ids, so the kept
      characters stay in the name's order. */
  lemma SlugConcat(a: string, b: string)
    ensures Slug(a + b) == Slug(a) + Slug(b)
  {
    ToLowerConcat(a, b);
    FilterConcat(ToLower(a), ToLower(b), IsSlugChar);
  }

  lemma ToLowerConcat(a: string, b: string)
    ensures ToLower(a + b) == ToLower(a) + ToLower(b)
  {
    var x, y := ToLower(a + b), ToLower(a) + ToLower(b);
    forall k | 0 <= k < |x|
      ensures x[k] == y[k]
    {
      if k < |a| {
        assert (a + b)[k] == a[k];
      } else {
        assert (a + b)[k] == b[k - |a|];
      }
    }
  }

  /** The default category "Fitness & Yoga" would get the id "fitnessyoga". */
  lemma SlugOfFitnessAndYoga()
    ensures Slug("Fitness & Yoga") == "fitnessyoga"
  {
    SplitName();
    SlugOfFitness();
    SlugOfSeparator();
    SlugOfYoga();
    SlugAroundSeparator("Fitness & Yoga", "Fitness", " & ", "Yoga");
    JoinedId();
  }

  /** A name made of two parts around a separator that keeps nothing gets
      the ids of the two parts, joined. */
  lemma SlugAroundSeparator(name: string, a: string, sep: string, b: string)
    requires name == a + (sep + b)
    requires Slug(sep) == []
    ensures Slug(name) == Slug(a) + Slug(b)
  {
    SlugConcat(a, sep + b);
    SlugConcat(sep, b);
    assert Slug(sep) + Slug(b) == Slug(b);
  }

  lemma SplitName()
    ensures "Fitness" + (" & " + "Yoga") == "Fitness & Yoga"
  {
  }

  lemma JoinedId()
    ensures "fitness" + "yoga" == "fitnessyoga"
  {
  }

  lemma SlugOfFitness()
    ensures Slug("Fitness") == "fitness"
  {
    SlugOfWord("Fitness", "fitness");
  }

  lemma SlugOfYoga()
    ensures Slug("Yoga") == "yoga"
  {
    SlugOfWord("Yoga", "yoga");
  }

  lemma SlugOfSeparator()
    ensures Slug(" & ") == []
  {
    var t := ToLower(" & ");
    assert t == " & ";
    FilterDropsAll(t, IsSlugChar);
  }

  /** A word of letters lower-cases to w and keeps all of it. */
  lemma SlugOfWord(word: string, w: string)
    requires ToLower(word) == w
    requires forall i :: 0 <= i < |w| ==> IsSlugChar(w[i])
    ensures Slug(word) == w
  {
    KeepSlugCharsFixes(w);
  }

  lemma {:induction false} KeepSlugCharsFixes(s: string)
    requires forall i :: 0 <= i < |s| ==> IsSlugChar(s[i])
    ensures KeepSlugChars(s) == s
  {
    if s != [] {
      KeepSlugCharsFixes(s[1..]);
    }
  }

  /** An id is its own slug. */
  lemma SlugIdempotent(name: string)
    ensures Slug(Slug(name)) == Slug(name)
  {
    var id := Slug(name);
    assert ToLower(id) == id;
    KeepSlugCharsFixes(id);
  }

  /** Names that agree ignoring case get the same id. */
  lemma SlugIgnoresCase(a: string, b: string)
    requires ToLower(a) == ToLower(b)
    ensures Slug(a) == Slug(b)
  {
  }

  /** The id of a name made only of lower-case letters and digits is the
      name itself. */
  lemma SlugOfPlainName(name: string)
    requires forall i :: 0 <= i < |name| ==> IsSlugChar(name[i])
    ensures Slug(name) == name
  {
    assert ToLower(name) == name;
    KeepSlugCharsFixes(name);
  }
}
