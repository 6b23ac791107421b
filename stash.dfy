/**
 * The window-class icon resolver of the window stash (helpers/stash.ts).
 *
 * A window class is resolved to a glyph in three stages tried in order:
 * an exact key of the user's icon map, a case-insensitive key of the same
 * map (first entry in iteration order wins), and a first-match substring
 * scan over a fixed table of thirteen patterns; if all three miss, the
 * default glyph is returned.
 */
module Stash {
  import opened Wrappers

  /** One minimized window, as recorded by the external minimizer script. */
  datatype MinimizedWindow = MinimizedWindow(
    address: string,
    displayTitle: string,
    className: string,
    originalTitle: string,
    icon: string)

  // ---------------------------------------------------------------------
  // Strings
  // ---------------------------------------------------------------------

  /** ASCII lower-casing of one character. */
  function LowerChar(ch: char): (r: char)
    ensures !('A' <= r <= 'Z')
    ensures 'A' <= ch <= 'Z' ==> 'a' <= r <= 'z'
    ensures 'A' <= ch <= 'Z' ==> r as int - 'a' as int == ch as int - 'A' as int
    ensures !('A' <= ch <= 'Z') ==> r == ch
  {
    if 'A' <= ch <= 'Z' then (ch as int - 'A' as int + 'a' as int) as char else ch
  }

  /** ASCII lower-casing of a string, character by character. */
  function Lower(s: string): (r: string)
    ensures |r| == |s|
    ensures forall i :: 0 <= i < |s| ==> r[i] == LowerChar(s[i])
  {
    if s == [] then [] else [LowerChar(s[0])] + Lower(s[1..])
  }

  /** Lower-casing is idempotent; it follows pointwise from the contracts of `Lower` and `LowerChar`. */
  lemma LowerIdempotent(s: string)
    ensures Lower(Lower(s)) == Lower(s)
  {
  }

  /** `p` occurs in `s` starting at position `i`. */
  predicate OccursAt(s: string, p: string, i: nat) {
    i + |p| <= |s| && s[i..i + |p|] == p
  }

  /** `s.includes(p)`: scans s from the left for an occurrence of p. */
  function Includes(s: string, p: string): (r: bool)
    ensures r <==> exists i: nat :: OccursAt(s, p, i)
  {
    if |s| < |p| then
      assert forall i: nat :: !OccursAt(s, p, i);
      false
    else if s[..|p|] == p then
      assert OccursAt(s, p, 0);
      true
    else
      var r := Includes(s[1..], p);
      assert r ==> exists i: nat :: OccursAt(s, p, i) by {
        if r {
          var i: nat :| OccursAt(s[1..], p, i);
          assert s[1..][i..i + |p|] == s[i + 1..i + 1 + |p|];
          assert OccursAt(s, p, i + 1);
        }
      }
      assert (exists i: nat :: OccursAt(s, p, i)) ==> r by {
        if i: nat :| OccursAt(s, p, i) {
          assert i != 0;
          assert s[1..][i - 1..i - 1 + |p|] == s[i..i + |p|];
          assert OccursAt(s[1..], p, i - 1);
        }
      }
      r
  }

  /** A pattern with a character that `s` lacks does not occur in `s`. */
  lemma MissingCharExcludes(s: string, p: string, k: nat)
    requires k < |p| && forall i :: 0 <= i < |s| ==> s[i] != p[k]
    ensures !Includes(s, p)
  {
  }

  // ---------------------------------------------------------------------
  // Tables
  // ---------------------------------------------------------------------

  /** The glyph returned when no stage matches (U+F2D0). */
  const DefaultIcon: string := "\U{F2D0}"

  /**
   * The built-in (pattern, glyph) table, in declaration order; its keys
   * are not integer-like, so iteration follows this order.
   */
  const Patterns: seq<(string, string)> := [
    ("terminal", "\U{F018D}"),
    ("code", "\U{F0A1E}"),
    ("chrome", "\U{F02AF}"),
    ("firefox", "\U{F0239}"),
    ("brave", "\U{F01E7}"),
    ("discord", "\U{F066F}"),
    ("spotify", "\U{F04C7}"),
    ("steam", "\U{F04D3}"),
    ("vlc", "\U{F057C}"),
    ("file", "\U{F024B}"),
    ("image", "\U{F02E9}"),
    ("video", "\U{F0567}"),
    ("pdf", "\U{F0226}")
  ]

  /** A record's keys are pairwise distinct. */
  predicate DistinctKeys(m: seq<(string, string)>) {
    forall i, j :: 0 <= i < j < |m| ==> m[i].0 != m[j].0
  }

  /** The user's class-to-glyph record, as its entries in iteration order. */
  type IconMap = m: seq<(string, string)> | DistinctKeys(m) witness []

  // ---------------------------------------------------------------------
  // Searches
  // ---------------------------------------------------------------------

  /** Index of the first element satisfying `p` (an `Array.find`). */
  function FirstMatch<T>(s: seq<T>, p: T -> bool): (r: Option<nat>)
    ensures r.Some? ==> r.value < |s| && p(s[r.value])
    ensures r.Some? ==> forall j :: 0 <= j < r.value ==> !p(s[j])
    ensures r.None? ==> forall j :: 0 <= j < |s| ==> !p(s[j])
  {
    if s == [] then None
    else if p(s[0]) then Some(0)
    else match FirstMatch(s[1..], p)
      case None => None
      case Some(k) => Some(k + 1)
  }

  /** Stage 1: the entry whose key is exactly `className`. */
  function ExactHit(m: IconMap, className: string): (r: Option<nat>)
    ensures r.Some? <==> exists i :: 0 <= i < |m| && m[i].0 == className
    ensures r.Some? ==> r.value < |m| && m[r.value].0 == className
  {
    FirstMatch(m, (e: (string, string)) => e.0 == className)
  }

  /** Stage 2: the first entry whose lower-cased key is `lowerName`. */
  function CaseInsensitiveHit(m: IconMap, lowerName: string): (r: Option<nat>)
    ensures r.Some? ==> r.value < |m| && Lower(m[r.value].0) == lowerName
    ensures r.Some? ==> forall j :: 0 <= j < r.value ==> Lower(m[j].0) != lowerName
    ensures r.None? ==> forall j :: 0 <= j < |m| ==> Lower(m[j].0) != lowerName
  {
    FirstMatch(m, (e: (string, string)) => Lower(e.0) == lowerName)
  }

  /** Stage 3: the first pattern that occurs in `lowerName`. */
  function PatternHit(lowerName: string): (r: Option<nat>)
    ensures r.Some? ==> r.value < |Patterns| && Includes(lowerName, Patterns[r.value].0)
    ensures r.Some? ==> forall j :: 0 <= j < r.value ==> !Includes(lowerName, Patterns[j].0)
    ensures r.None? ==> forall j :: 0 <= j < |Patterns| ==> !Includes(lowerName, Patterns[j].0)
  {
    FirstMatch(Patterns, (e: (string, string)) => Includes(lowerName, e.0))
  }

  // ---------------------------------------------------------------------
  // The resolver
  // ---------------------------------------------------------------------

  /** Some key of `m` equals `className` up to ASCII case. */
  predicate KeyMatches(m: IconMap, className: string) {
    exists i :: 0 <= i < |m| && Lower(m[i].0) == Lower(className)
  }

  /** `glyph` is the value of some entry of the user map. */
  predicate IsUserGlyph(iconMap: Option<IconMap>, glyph: string) {
    iconMap.Some? && exists i :: 0 <= i < |iconMap.value| && iconMap.value[i].1 == glyph
  }

  /** `glyph` is the glyph of one of the built-in patterns. */
  predicate IsPatternGlyph(glyph: string) {
    exists k :: 0 <= k < |Patterns| && Patterns[k].1 == glyph
  }

  /**
   * `getWindowIcon(className)`, with the user's icon map passed in. The
   * result always comes from the user map, the pattern table or the
   * default glyph; the function is total.
   */
  function GetWindowIcon(iconMap: Option<IconMap>, className: string): (icon: string)
    ensures IsUserGlyph(iconMap, icon) || IsPatternGlyph(icon) || icon == DefaultIcon
  {
    var userHit :=
      if iconMap.None? then None
      else match ExactHit(iconMap.value, className)
        case Some(i) => Some(iconMap.value[i].1)
        case None =>
          match CaseInsensitiveHit(iconMap.value, Lower(className))
          case Some(i) => Some(iconMap.value[i].1)
          case None => None;
    match userHit
    case Some(glyph) => glyph
    case None =>
      match PatternHit(Lower(className))
      case Some(k) => Patterns[k].1
      case None => DefaultIcon
  }

  // ---------------------------------------------------------------------
  // Properties of the resolver
  // ---------------------------------------------------------------------

  /** An exact key wins over everything else. */
  lemma ExactKeyWins(m: IconMap, className: string, i: nat)
    requires i < |m| && m[i].0 == className
    ensures GetWindowIcon(Some(m), className) == m[i].1
  {
    var h := ExactHit(m, className);
    assert h.Some?;
    assert h.value == i;
  }

  /**
   * Without an exact key, the first entry in iteration order whose key
   * equals the class name up to case supplies the glyph.
   */
  lemma FirstCaseInsensitiveKeyWins(m: IconMap, className: string, i: nat)
    requires forall j :: 0 <= j < |m| ==> m[j].0 != className
    requires i < |m| && Lower(m[i].0) == Lower(className)
    requires forall j :: 0 <= j < i ==> Lower(m[j].0) != Lower(className)
    ensures GetWindowIcon(Some(m), className) == m[i].1
  {
    var h := CaseInsensitiveHit(m, Lower(className));
    assert h.Some?;
    assert h.value == i;
  }

  /**
   * A user-map key matching up to case always decides the result, so the
   * pattern table is never consulted then.
   */
  lemma UserMapBeatsPatterns(m: IconMap, className: string)
    requires KeyMatches(m, className)
    ensures exists i :: 0 <= i < |m| && Lower(m[i].0) == Lower(className)
                        && GetWindowIcon(Some(m), className) == m[i].1
  {
    match ExactHit(m, className)
    case Some(i) =>
      assert GetWindowIcon(Some(m), className) == m[i].1;
    case None =>
      var i :| 0 <= i < |m| && Lower(m[i].0) == Lower(className);
      var h := CaseInsensitiveHit(m, Lower(className));
      assert h.Some?;
      assert GetWindowIcon(Some(m), className) == m[h.value].1;
  }

  /** When no key matches even up to case, the user map has no effect. */
  lemma UserMapMissFallsThrough(m: IconMap, className: string)
    requires !KeyMatches(m, className)
    ensures GetWindowIcon(Some(m), className) == GetWindowIcon(None, className)
  {
    assert ExactHit(m, className).None?;
  }

  /**
   * With no user-map match (or no map), the glyph is that of the earliest
   * pattern occurring in the lower-cased class name.
   */
  lemma FirstPatternWins(iconMap: Option<IconMap>, className: string, k: nat)
    requires iconMap.Some? ==> !KeyMatches(iconMap.value, className)
    requires k < |Patterns| && Includes(Lower(className), Patterns[k].0)
    requires forall j :: 0 <= j < k ==> !Includes(Lower(className), Patterns[j].0)
    ensures GetWindowIcon(iconMap, className) == Patterns[k].1
  {
    if iconMap.Some? {
      UserMapMissFallsThrough(iconMap.value, className);
    }
    var h := PatternHit(Lower(className));
    assert h.Some?;
    assert h.value == k;
  }

  /** "code" precedes "chrome": a class containing "code" never gets a browser glyph. */
  lemma CodeBeforeChrome(className: string)
    requires Includes(Lower(className), "code")
    ensures GetWindowIcon(None, className) == Patterns[0].1
         || GetWindowIcon(None, className) == Patterns[1].1
  {
    if Includes(Lower(className), Patterns[0].0) {
      FirstPatternWins(None, className, 0);
    } else {
      FirstPatternWins(None, className, 1);
    }
  }

  /** With no user-map match and no pattern occurring, the default glyph is returned. */
  lemma NoMatchGivesDefault(iconMap: Option<IconMap>, className: string)
    requires iconMap.Some? ==> !KeyMatches(iconMap.value, className)
    requires forall k :: 0 <= k < |Patterns| ==> !Includes(Lower(className), Patterns[k].0)
    ensures GetWindowIcon(iconMap, className) == DefaultIcon
  {
    if iconMap.Some? {
      UserMapMissFallsThrough(iconMap.value, className);
    }
  }

  /** Without a user map, only the lower-cased class name matters. */
  lemma CaseInsensitiveWithoutMap(className: string)
    ensures GetWindowIcon(None, className) == GetWindowIcon(None, Lower(className))
  {
    LowerIdempotent(className);
  }

  /** The literal is passed through a parameter for the same reason as below. */
  lemma LowerGoogleChrome(className: string)
    requires className == "Google-chrome"
    ensures Lower(className) == "google-chrome"
  {
    var lowerName := Lower(className);
    forall i | 0 <= i < |className| ensures lowerName[i] == "google-chrome"[i] {
      assert lowerName[i] == LowerChar(className[i]);
    }
  }

  /** In "google-chrome" the first pattern that occurs is "chrome", the third of the table. */
  lemma ChromePatternHit(lowerName: string)
    requires lowerName == "google-chrome"
    ensures PatternHit(lowerName) == Some(2)
  {
    MissingCharExcludes(lowerName, "terminal", 0);
    MissingCharExcludes(lowerName, "code", 2);
    assert OccursAt(lowerName, "chrome", 7);
    var h := PatternHit(lowerName);
    assert h.Some? && h.value == 2;
  }

  /**
   * The class "Google-chrome" gets the chrome glyph when no user map is set.
   * The literal is passed through a parameter so that the verifier does not
   * unfold `Lower` on it character by character.
   */
  lemma GoogleChromeGetsChromeGlyph(className: string)
    requires className == "Google-chrome"
    ensures GetWindowIcon(None, className) == "\U{F02AF}"
  {
    LowerGoogleChrome(className);
    ChromePatternHit(Lower(className));
  }
}
