/**
 * Kotlin's `String.replace(oldValue, newValue)` on plain character sequences,
 * and the class-name shortening that the view-tree dump applies to every label.
 */
module Strings {

  /** `pat` occurs in `s` starting at index `i`. */
  predicate OccursAt(s: string, pat: string, i: nat) {
    i + |pat| <= |s| && s[i..i + |pat|] == pat
  }

  /** `pat` occurs somewhere in `s`. */
  predicate Contains(s: string, pat: string) {
    exists i: nat | i <= |s| :: OccursAt(s, pat, i)
  }

  /**
   * `s.replace(pat, rep)`: every occurrence of `pat`, found left to right and
   * without overlap, is replaced by `rep`. An empty `pat` matches before every
   * character and once at the end; a character here is a Unicode scalar value,
   * where Kotlin counts UTF-16 code units, so the two differ only for an empty
   * pattern on text outside the Basic Multilingual Plane.
   */
  function ReplaceAll(s: string, pat: string, rep: string): (r: string)
    ensures pat != [] && |rep| <= |pat| ==> |r| <= |s|
    ensures pat == [] ==> |r| == |s| + (|s| + 1) * |rep|
    decreases |s|
  {
    if pat == [] then
      if s == [] then rep else rep + [s[0]] + ReplaceAll(s[1..], pat, rep)
    else if |pat| <= |s| && s[..|pat|] == pat then
      rep + ReplaceAll(s[|pat|..], pat, rep)
    else if s == [] then
      []
    else
      [s[0]] + ReplaceAll(s[1..], pat, rep)
  }

  /** An occurrence in the tail of `s` is an occurrence in `s`, one index further. */
  lemma ContainsTail(s: string, pat: string)
    requires s != [] && Contains(s[1..], pat)
    ensures Contains(s, pat)
  {
    var i: nat :| i <= |s| - 1 && OccursAt(s[1..], pat, i);
    assert s[i + 1..i + 1 + |pat|] == s[1..][i..i + |pat|];
    assert OccursAt(s, pat, i + 1);
  }

  /** A non-empty pattern that does not occur is left alone, whatever the replacement. */
  lemma {:induction false} ReplaceAllAbsent(s: string, pat: string, rep: string)
    requires pat != []
    ensures !Contains(s, pat) ==> ReplaceAll(s, pat, rep) == s
    decreases |s|
  {
    if |pat| <= |s| && s[..|pat|] == pat {
      assert OccursAt(s, pat, 0);
    } else if s != [] {
      if Contains(s[1..], pat) {
        ContainsTail(s, pat);
      } else {
        ReplaceAllAbsent(s[1..], pat, rep);
        assert [s[0]] + s[1..] == s;
      }
    }
  }

  /** Removing a non-empty pattern that does occur makes the string strictly shorter. */
  lemma {:induction false} RemoveAllShrinks(s: string, pat: string)
    requires pat != [] && Contains(s, pat)
    ensures |ReplaceAll(s, pat, [])| < |s|
    decreases |s|
  {
    var i: nat :| i <= |s| && OccursAt(s, pat, i);
    if |pat| <= |s| && s[..|pat|] == pat {
      assert |ReplaceAll(s[|pat|..], pat, [])| <= |s| - |pat|;
    } else {
      assert i != 0;
      assert s[1..][i - 1..i - 1 + |pat|] == s[i..i + |pat|];
      assert OccursAt(s[1..], pat, i - 1);
      RemoveAllShrinks(s[1..], pat);
    }
  }

  /** Removing a non-empty pattern leaves `s` unchanged exactly when the pattern does not occur in it. */
  lemma RemoveAllFixedIff(s: string, pat: string)
    requires pat != []
    ensures ReplaceAll(s, pat, []) == s <==> !Contains(s, pat)
  {
    if Contains(s, pat) {
      RemoveAllShrinks(s, pat);
    } else {
      ReplaceAllAbsent(s, pat, []);
    }
  }

  /** A match at the very start is replaced, and the scan resumes right after it. */
  lemma ReplaceAllLeading(pat: string, s: string, rep: string)
    requires pat != []
    ensures ReplaceAll(pat + s, pat, rep) == rep + ReplaceAll(s, pat, rep)
  {
  }

  /** Every character of a pattern that occurs in `s` is a character of `s`. */
  lemma OccurrenceCharacters(s: string, pat: string, c: char)
    ensures Contains(s, pat) && c in pat ==> c in s
  {
  }

  /** The package prefix that the dump strips from framework widget classes. */
  const WidgetPackage := "android.widget."

  /** The prefix of the adapter's nested `RemoteViewsAdapter$RemoteViews…` classes. */
  const RemoteViewsPrefix := "RemoteViewsAdapter$RemoteViews"

  /** A class name as shown in the dump: both prefixes removed everywhere, in this order. */
  function ShortName(name: string): (r: string)
    ensures |r| <= |name|
  {
    ReplaceAll(ReplaceAll(name, WidgetPackage, ""), RemoteViewsPrefix, "")
  }

  /** A name is shown as it is exactly when it contains neither prefix. */
  lemma ShortNameFixedIff(name: string)
    ensures ShortName(name) == name <==> !Contains(name, WidgetPackage) && !Contains(name, RemoteViewsPrefix)
  {
    var first := ReplaceAll(name, WidgetPackage, "");
    RemoveAllFixedIff(name, WidgetPackage);
    if first == name {
      RemoveAllFixedIff(name, RemoteViewsPrefix);
    } else {
      assert |first| < |name| by { RemoveAllShrinks(name, WidgetPackage); }
    }
  }

  /** A framework widget `android.widget.C` is shown as `C` when `C` holds neither prefix. */
  lemma ShortNameOfWidget(c: string)
    requires !Contains(c, WidgetPackage) && !Contains(c, RemoteViewsPrefix)
    ensures ShortName(WidgetPackage + c) == c
  {
    ReplaceAllLeading(WidgetPackage, c, "");
    assert "" + c == c;
    ReplaceAllAbsent(c, WidgetPackage, "");
    ReplaceAllAbsent(c, RemoteViewsPrefix, "");
  }

  /**
   * A nested adapter view `android.widget.RemoteViewsAdapter$RemoteViewsC` is shown as `C`
   * when `C` has no dot and does not hold the adapter prefix.
   */
  lemma ShortNameOfRemoteViews(c: string)
    requires '.' !in c && !Contains(c, RemoteViewsPrefix)
    ensures ShortName(WidgetPackage + RemoteViewsPrefix + c) == c
  {
    var rest := RemoteViewsPrefix + c;
    assert '.' !in rest;
    OccurrenceCharacters(rest, WidgetPackage, '.');
    assert WidgetPackage + RemoteViewsPrefix + c == WidgetPackage + rest;
    ReplaceAllLeading(WidgetPackage, rest, "");
    assert "" + rest == rest;
    ReplaceAllAbsent(rest, WidgetPackage, "");
    ReplaceAllLeading(RemoteViewsPrefix, c, "");
    assert "" + c == c;
    ReplaceAllAbsent(c, RemoteViewsPrefix, "");
  }

  /** A framework text view loses its package. */
  lemma ShortNameTextView()
    ensures ShortName("android.widget.TextView") == "TextView"
  {
    ShortNameOfWidget("TextView");
    assert "android.widget.TextView" == WidgetPackage + "TextView";
  }

  /** A class from another package is shown in full. */
  lemma ShortNameForeignClass()
    ensures ShortName("com.example.ClockView") == "com.example.ClockView"
  {
    var name := "com.example.ClockView";
    OccurrenceCharacters(name, WidgetPackage, 'd');
    OccurrenceCharacters(name, RemoteViewsPrefix, 'R');
    ShortNameFixedIff(name);
  }
}
