/**
 * The filename sanitizer of utils.py: two character-class deletions, a
 * 200-character prefix and a whitespace strip, as functions over strings
 * (a Python `str` is a sequence of code points, a Dafny `string` of chars).
 */
module Utils {

  /** Length kept by the slice `filename[:200]`. */
  const MaxFilenameLength: nat := 200

  /** The class `[<>:"/\\|?*]` of the first substitution. */
  predicate IsReserved(c: char) {
    c in "<>:\"/\\|?*"
  }

  /** The class `[\x00-\x1f]` of the second substitution. */
  predicate IsControl(c: char) {
    c as int <= 0x1F
  }

  /** A character the sanitizer deletes, by either substitution. */
  predicate IsUnsafe(c: char) {
    IsReserved(c) || IsControl(c)
  }

  /**
   * The characters Python's `str.strip()` removes when called without
   * arguments: those for which `str.isspace()` holds.
   */
  predicate IsSpace(c: char) {
    ('\t' <= c <= '\r') || ('\U{1C}' <= c <= '\U{1F}') || c == ' '
    || c == '\U{85}' || c == '\U{A0}' || c == '\U{1680}'
    || ('\U{2000}' <= c <= '\U{200A}') || c == '\U{2028}' || c == '\U{2029}'
    || c == '\U{202F}' || c == '\U{205F}' || c == '\U{3000}'
  }

  /** `re.sub(<class>, '', s)`: every character matching `drop` is deleted. */
  function Delete(s: string, drop: char -> bool): (r: string)
    ensures |r| <= |s|
    ensures forall i :: 0 <= i < |r| ==> !drop(r[i])
    decreases |s|
  {
    if s == [] then []
    else (if drop(s[0]) then [] else [s[0]]) + Delete(s[1..], drop)
  }

  /** The slice `s[:200]`. */
  function Truncate(s: string): (r: string)
    ensures |r| == if |s| <= MaxFilenameLength then |s| else MaxFilenameLength
    ensures r == s[..|r|]
  {
    if |s| <= MaxFilenameLength then s else s[..MaxFilenameLength]
  }

  /** `s.lstrip()`: the suffix left after dropping every leading space. */
  function StripLeading(s: string): (r: string)
    ensures |r| <= |s| && r == s[|s| - |r|..]
    ensures forall i :: 0 <= i < |s| - |r| ==> IsSpace(s[i])
    ensures r == [] || !IsSpace(r[0])
    decreases |s|
  {
    if s != [] && IsSpace(s[0]) then StripLeading(s[1..]) else s
  }

  /** `s.rstrip()`: the prefix left after dropping every trailing space. */
  function StripTrailing(s: string): (r: string)
    ensures |r| <= |s| && r == s[..|r|]
    ensures forall i :: |r| <= i < |s| ==> IsSpace(s[i])
    ensures r == [] || !IsSpace(r[|r| - 1])
    decreases |s|
  {
    if s != [] && IsSpace(s[|s| - 1]) then StripTrailing(s[..|s| - 1]) else s
  }

  /** `r` is `s[k..k + |r|]`, and everything of `s` before and after it is whitespace. */
  predicate SliceBetweenSpaces(s: string, r: string, k: int) {
    0 <= k <= |s| - |r| && r == s[k..k + |r|]
    && (forall i :: 0 <= i < k ==> IsSpace(s[i]))
    && (forall i :: k + |r| <= i < |s| ==> IsSpace(s[i]))
  }

  /**
   * `s.strip()`: both ends stripped of whitespace. The result is a slice
   * `s[k..k + |r|]` whose surroundings are all whitespace, and it neither
   * starts nor ends with whitespace.
   */
  function Strip(s: string): (r: string)
    ensures |r| <= |s|
    ensures SliceBetweenSpaces(s, r, |s| - |StripLeading(s)|)
    ensures r == [] || (!IsSpace(r[0]) && !IsSpace(r[|r| - 1]))
  {
    var t := StripLeading(s);
    var r := StripTrailing(t);
    StripBothEnds(s);
    assert r != [] ==> r[0] == t[0];
    r
  }

  /** Stripping the leading then the trailing whitespace leaves a slice with only whitespace around it. */
  lemma StripBothEnds(s: string)
    ensures var t := StripLeading(s); SliceBetweenSpaces(s, StripTrailing(t), |s| - |t|)
  {
    StripIsSlice(s);
    StripDropsTrailingSpace(s);
  }

  /** What strip keeps is `s[k..k + |r|]`, with `k` the number of leading spaces. */
  lemma StripIsSlice(s: string)
    ensures var t := StripLeading(s); var r := StripTrailing(t);
      r == s[|s| - |t|..|s| - |t| + |r|]
  {
    var t := StripLeading(s);
    var r := StripTrailing(t);
    PrefixOfSuffix(s, |s| - |t|, |r|);
  }

  /** Taking `n` characters of the suffix from `k` is the slice `s[k..k + n]`. */
  lemma PrefixOfSuffix(s: string, k: nat, n: nat)
    requires k + n <= |s|
    ensures s[k..][..n] == s[k..k + n]
  {
  }

  /** Everything after what strip keeps is whitespace. */
  lemma StripDropsTrailingSpace(s: string)
    ensures var t := StripLeading(s); var r := StripTrailing(t);
      forall i :: |s| - |t| + |r| <= i < |s| ==> IsSpace(s[i])
  {
    var t := StripLeading(s);
    var r := StripTrailing(t);
    var k := |s| - |t|;
    forall i | k + |r| <= i < |s|
      ensures IsSpace(s[i])
    {
      assert s[i] == t[i - k];
    }
  }

  /**
   * `sanitize_filename`: delete the reserved characters, then the control
   * characters, keep the first 200 characters that remain, and strip.
   */
  function SanitizeFilename(filename: string): (r: string)
    ensures forall i :: 0 <= i < |r| ==> !IsReserved(r[i]) && !IsControl(r[i])
    ensures |r| <= MaxFilenameLength
    ensures r == [] || (!IsSpace(r[0]) && !IsSpace(r[|r| - 1]))
  {
    var noControl := Delete(Delete(filename, IsReserved), IsControl);
    DeleteTwice(filename);
    var t := Truncate(noControl);
    StripKeepsSafe(t);
    Strip(t)
  }

  // ---------------------------------------------------------------------
  // The character classes

  /** No character is in both deleted classes, so the order of the two substitutions does not matter. */
  lemma ReservedNotControl(c: char)
    ensures IsReserved(c) ==> !IsControl(c)
  {
  }

  /**
   * After both deletions the only whitespace left to strip is ' ' or a
   * non-ASCII space (0x85 and up): tab, newline and the other ASCII
   * whitespace are control characters and are already gone.
   */
  lemma SpaceAfterDeletion(c: char)
    ensures IsSpace(c) && !IsUnsafe(c) <==> c == ' ' || (IsSpace(c) && c as int >= 0x85)
  {
  }

  // ---------------------------------------------------------------------
  // Deletion removes characters and keeps the rest in order

  /** Deleting from a concatenation deletes from each part: what survives keeps its order. */
  lemma {:induction false} DeleteConcat(a: string, b: string, drop: char -> bool)
    ensures Delete(a + b, drop) == Delete(a, drop) + Delete(b, drop)
    decreases |a|
  {
    if a != [] {
      assert (a + b)[0] == a[0];
      assert (a + b)[1..] == a[1..] + b;
      DeleteConcat(a[1..], b, drop);
    } else {
      assert a + b == b;
    }
  }

  /** Every character that survives deletion was in the input. */
  lemma {:induction false} DeleteFrom(s: string, drop: char -> bool)
    ensures forall c :: c in Delete(s, drop) ==> c in s
    decreases |s|
  {
    if s != [] {
      DeleteFrom(s[1..], drop);
    }
  }

  /** A single character is either dropped or kept unchanged, never replaced. */
  lemma DeleteSingle(c: char, drop: char -> bool)
    ensures Delete([c], drop) == if drop(c) then [] else [c]
  {
    assert [c][1..] == [];
  }

  /** A string with nothing to delete comes back unchanged. */
  lemma {:induction false} DeleteNothing(s: string, drop: char -> bool)
    requires forall i :: 0 <= i < |s| ==> !drop(s[i])
    ensures Delete(s, drop) == s
    decreases |s|
  {
    if s != [] {
      DeleteNothing(s[1..], drop);
    }
  }

  /** A string made only of deleted characters comes back empty. */
  lemma {:induction false} DeleteEverything(s: string, drop: char -> bool)
    requires forall i :: 0 <= i < |s| ==> drop(s[i])
    ensures Delete(s, drop) == []
    decreases |s|
  {
    if s != [] {
      DeleteEverything(s[1..], drop);
    }
  }

  /** The two substitutions in a row are one deletion of the unsafe characters. */
  lemma {:induction false} DeleteTwice(s: string)
    ensures Delete(Delete(s, IsReserved), IsControl) == Delete(s, IsUnsafe)
    decreases |s|
  {
    if s != [] {
      DeleteTwice(s[1..]);
      var head := if IsReserved(s[0]) then [] else [s[0]];
      calc {
        Delete(Delete(s, IsReserved), IsControl);
        Delete(head + Delete(s[1..], IsReserved), IsControl);
        { DeleteConcat(head, Delete(s[1..], IsReserved), IsControl); }
        Delete(head, IsControl) + Delete(Delete(s[1..], IsReserved), IsControl);
        { if head != [] { DeleteSingle(s[0], IsControl); } }
        Delete(s, IsUnsafe);
      }
    }
  }

  // ---------------------------------------------------------------------
  // Strip

  /** Strip only removes characters, so a string free of unsafe characters stays free of them. */
  lemma StripKeepsSafe(s: string)
    requires forall i :: 0 <= i < |s| ==> !IsUnsafe(s[i])
    ensures forall i :: 0 <= i < |Strip(s)| ==> !IsUnsafe(Strip(s)[i])
  {
    var t := StripLeading(s);
    var k := |s| - |t|;
    forall i | 0 <= i < |Strip(s)| ensures Strip(s)[i] == s[k + i] {
      assert Strip(s)[i] == t[i];
    }
  }

  /** A string without leading or trailing space is its own strip. */
  lemma StripStripped(s: string)
    requires s == [] || (!IsSpace(s[0]) && !IsSpace(s[|s| - 1]))
    ensures Strip(s) == s
  {
  }

  /** Strip yields the empty string exactly when every character is a space. */
  lemma StripEmpty(s: string)
    ensures Strip(s) == [] <==> forall i :: 0 <= i < |s| ==> IsSpace(s[i])
  {
    if Strip(s) == [] {
      assert StripLeading(s) == [];
    }
  }

  // ---------------------------------------------------------------------
  // Properties of the sanitizer

  /**
   * Reference definition: the sanitized name is the stripped 200-character
   * prefix of the input with every unsafe character deleted.
   */
  lemma SanitizeIsStrippedPrefixOfSafe(filename: string)
    ensures SanitizeFilename(filename) == Strip(Truncate(Delete(filename, IsUnsafe)))
  {
    DeleteTwice(filename);
  }

  /** Sanitizing a sanitized name changes nothing. */
  lemma SanitizeIdempotent(filename: string)
    ensures SanitizeFilename(SanitizeFilename(filename)) == SanitizeFilename(filename)
  {
    var r := SanitizeFilename(filename);
    DeleteNothing(r, IsReserved);
    DeleteNothing(r, IsControl);
    StripStripped(r);
  }

  /**
   * The result is empty exactly when the first 200 characters that survive
   * the deletions are all spaces; the sanitizer has no fallback name.
   */
  lemma SanitizeEmptyIff(filename: string)
    ensures var kept := Truncate(Delete(filename, IsUnsafe));
      SanitizeFilename(filename) == [] <==> forall i :: 0 <= i < |kept| ==> IsSpace(kept[i])
  {
    SanitizeIsStrippedPrefixOfSafe(filename);
    StripEmpty(Truncate(Delete(filename, IsUnsafe)));
  }

  /** A name made only of unsafe characters and spaces sanitizes to "". */
  lemma SanitizeOnlyJunk(filename: string)
    requires forall i :: 0 <= i < |filename| ==> IsUnsafe(filename[i]) || IsSpace(filename[i])
    ensures SanitizeFilename(filename) == []
  {
    var safe := Delete(filename, IsUnsafe);
    var kept := Truncate(safe);
    DeleteFrom(filename, IsUnsafe);
    forall i | 0 <= i < |kept| ensures IsSpace(kept[i]) {
      assert kept[i] == safe[i];
      assert safe[i] in filename;
    }
    SanitizeEmptyIff(filename);
  }

  /** Reserved characters are deleted, not replaced: "a:b" becomes "ab". */
  lemma SanitizeDeletesColon()
    ensures SanitizeFilename("a:b") == "ab"
  {
    var s, ab := "a:b", "ab";
    assert Delete(s, IsUnsafe) == ab by {
      assert s[1..] == ":b" && s[1..][1..] == "b" && "b"[1..] == [];
      assert Delete("b", IsUnsafe) == "b";
      assert IsUnsafe(s[1]) && Delete(":b", IsUnsafe) == "b";
      assert !IsUnsafe(s[0]);
    }
    assert Strip(Truncate(ab)) == ab by {
      assert Truncate(ab) == ab;
      assert !IsSpace(ab[0]) && StripLeading(ab) == ab;
      assert !IsSpace(ab[1]) && StripTrailing(ab) == ab;
    }
    SanitizeIsStrippedPrefixOfSafe(s);
  }
}
