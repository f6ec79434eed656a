/**
 * Python's `str.strip()` called without arguments, over strings of Unicode
 * scalar values: it removes leading and trailing whitespace and keeps every
 * other character, case included, as it is.
 */
module PyStr {

  /**
   * The characters Python's `str.isspace()` accepts: the ASCII controls
   * TAB, LF, VT, FF, CR, the separators 0x1C-0x1F, SPACE, NEL, NO-BREAK SPACE
   * and the Unicode space separators and line/paragraph separators.
   */
  predicate IsSpace(c: char) {
    || c == ' '
    || ('\t' <= c <= '\r')
    || ('\U{1C}' <= c <= '\U{1F}')
    || c == '\U{85}'
    || c == '\U{A0}'
    || c == '\U{1680}'
    || ('\U{2000}' <= c <= '\U{200A}')
    || c == '\U{2028}'
    || c == '\U{2029}'
    || c == '\U{202F}'
    || c == '\U{205F}'
    || c == '\U{3000}'
  }

  /** Every character of `s` is whitespace (the empty string included). */
  predicate AllSpace(s: string) {
    forall k :: 0 <= k < |s| ==> IsSpace(s[k])
  }

  /** The number of whitespace characters `s` starts with. */
  function LeadingSpace(s: string): (n: nat)
    ensures n <= |s|
  {
    if s != [] && IsSpace(s[0]) then 1 + LeadingSpace(s[1..]) else 0
  }

  /** The length of `s` without the whitespace it ends with. */
  function TextEnd(s: string): (n: nat)
    ensures n <= |s|
  {
    if s != [] && IsSpace(s[|s| - 1]) then TextEnd(s[..|s| - 1]) else |s|
  }

  /** `LeadingSpace(s)` counts exactly the whitespace run at the start of `s`. */
  lemma {:induction false} LeadingSpaceIsRun(s: string)
    ensures forall k :: 0 <= k < LeadingSpace(s) ==> IsSpace(s[k])
    ensures LeadingSpace(s) < |s| ==> !IsSpace(s[LeadingSpace(s)])
  {
    if s != [] && IsSpace(s[0]) {
      LeadingSpaceIsRun(s[1..]);
      forall k | 1 <= k < LeadingSpace(s) ensures IsSpace(s[k]) {
        assert s[k] == s[1..][k - 1];
      }
    }
  }

  /** `TextEnd(s)` is where the whitespace run at the end of `s` begins. */
  lemma {:induction false} TextEndIsRun(s: string)
    ensures forall k :: TextEnd(s) <= k < |s| ==> IsSpace(s[k])
    ensures TextEnd(s) > 0 ==> !IsSpace(s[TextEnd(s) - 1])
  {
    if s != [] && IsSpace(s[|s| - 1]) {
      var t := s[..|s| - 1];
      TextEndIsRun(t);
      forall k | TextEnd(s) <= k < |s| - 1 ensures IsSpace(s[k]) {
        assert s[k] == t[k];
      }
    }
  }

  /** Python's `s.strip()`: `s` without its leading and trailing whitespace. */
  function Strip(s: string): (r: string)
    ensures |r| <= |s|
  {
    LeadingSpaceIsRun(s);
    TextEndIsRun(s);
    var i := LeadingSpace(s);
    if i == |s| then [] else s[i..TextEnd(s)]
  }

  /** The stripped string is empty exactly when `s` is all whitespace, and otherwise neither starts nor ends with whitespace. */
  lemma StripEnds(s: string)
    ensures Strip(s) == [] <==> AllSpace(s)
    ensures Strip(s) != [] ==> !IsSpace(Strip(s)[0]) && !IsSpace(Strip(s)[|Strip(s)| - 1])
  {
    LeadingSpaceIsRun(s);
    TextEndIsRun(s);
  }

  /**
   * `Strip(s)` is the one slice `s[i..j]` that is cut out by whitespace on
   * both sides and is either empty or bounded by non-whitespace: so it keeps
   * the characters in between, case included, unchanged.
   */
  lemma StripUnique(s: string, i: nat, j: nat)
    requires i <= j <= |s|
    requires forall k :: 0 <= k < i ==> IsSpace(s[k])
    requires forall k :: j <= k < |s| ==> IsSpace(s[k])
    requires i == j || (!IsSpace(s[i]) && !IsSpace(s[j - 1]))
    ensures Strip(s) == s[i..j]
  {
    LeadingSpaceIsRun(s);
    TextEndIsRun(s);
    if i < j {
      assert LeadingSpace(s) == i;
      assert TextEnd(s) == j;
    }
  }

  /** Stripping twice is stripping once. */
  lemma StripIdempotent(s: string)
    ensures Strip(Strip(s)) == Strip(s)
  {
    var r := Strip(s);
    StripEnds(s);
    StripUnique(r, 0, |r|);
  }

  /** `s` is its stripped form with whitespace padding `pre` and `post` (either possibly empty) on each side. */
  lemma StripPadding(s: string) returns (pre: string, post: string)
    ensures AllSpace(pre) && AllSpace(post) && s == pre + Strip(s) + post
  {
    LeadingSpaceIsRun(s);
    TextEndIsRun(s);
    var i := LeadingSpace(s);
    if i == |s| {
      pre, post := s, [];
    } else {
      pre, post := s[..i], s[TextEnd(s)..];
      assert s == s[..i] + s[i..TextEnd(s)] + s[TextEnd(s)..];
    }
  }

  /** Stripping a non-blank, already stripped string padded with whitespace gives it back. */
  lemma StripOfPadded(pre: string, text: string, post: string)
    requires AllSpace(pre) && AllSpace(post)
    requires text != [] && !IsSpace(text[0]) && !IsSpace(text[|text| - 1])
    ensures Strip(pre + text + post) == text
  {
    var s := pre + text + post;
    var i, j := |pre|, |pre| + |text|;
    assert s[i..j] == text;
    assert forall k :: 0 <= k < i ==> s[k] == pre[k];
    assert forall k :: j <= k < |s| ==> s[k] == post[k - j];
    StripUnique(s, i, j);
  }
}
