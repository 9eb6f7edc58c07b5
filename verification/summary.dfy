/**
 * Cleaning of an episode summary (fam_guy_ep_email.py, line 80): one
 * left-to-right pass of `re.sub(r'</?p>', '', s)` deleting every
 * non-overlapping `<p>` or `</p>`, then `str.strip()`.
 */
module Summary {

  const OPEN_TAG := "<p>"
  const CLOSE_TAG := "</p>"

  /** The pattern `</?p>` matches at the start of `s`. */
  predicate StartsWithTag(s: string)
  {
    OPEN_TAG <= s || CLOSE_TAG <= s
  }

  /** No position of `s` starts a match of `</?p>`. */
  predicate NoTags(s: string)
  {
    forall i :: 0 <= i <= |s| ==> !StartsWithTag(s[i..])
  }

  /**
   * The substitution: scanning from the left, a match is deleted and the scan
   * resumes after it; otherwise one character is kept. The two alternatives
   * cannot both match at one position (the second character is `p` or `/`).
   */
  function StripTags(s: string): (r: string)
    ensures |r| <= |s|
    decreases |s|
  {
    if OPEN_TAG <= s then StripTags(s[|OPEN_TAG|..])
    else if CLOSE_TAG <= s then StripTags(s[|CLOSE_TAG|..])
    else if s == [] then []
    else [s[0]] + StripTags(s[1..])
  }

  /** A text in which the pattern never matches comes back unchanged. */
  lemma {:induction false} StripTagsKeepsUntagged(s: string)
    requires NoTags(s)
    ensures StripTags(s) == s
    decreases |s|
  {
    if s != [] {
      assert !StartsWithTag(s[0..]) by { assert s[0..] == s; }
      assert NoTags(s[1..]) by {
        forall i | 0 <= i <= |s[1..]| ensures !StartsWithTag(s[1..][i..]) {
          assert s[1..][i..] == s[i + 1..];
        }
      }
      StripTagsKeepsUntagged(s[1..]);
    }
  }

  /** A text holding a match anywhere gets strictly shorter. */
  lemma {:induction false} StripTagsShortens(s: string, i: nat)
    requires i <= |s| && StartsWithTag(s[i..])
    ensures |StripTags(s)| < |s|
    decreases |s|
  {
    if !(OPEN_TAG <= s || CLOSE_TAG <= s) {
      assert s[1..][i - 1..] == s[i..];
      StripTagsShortens(s[1..], i - 1);
    }
  }

  /** `s[i..i + n]` is a match of `</?p>`. */
  predicate MatchAt(s: string, i: nat, n: nat)
  {
    i + n <= |s| && (s[i..i + n] == OPEN_TAG || s[i..i + n] == CLOSE_TAG)
  }

  /** No match starts before position `i`. */
  predicate NoMatchBefore(s: string, i: nat)
    requires i <= |s|
  {
    forall j :: 0 <= j < i ==> !StartsWithTag(s[j..])
  }

  /** A match at the start is deleted and the pass resumes after it. */
  lemma StripTagsDropsMatch(s: string, n: nat)
    requires MatchAt(s, 0, n)
    ensures StripTags(s) == StripTags(s[n..])
  {
    assert s[0..n] == s[..n];
    if s[..n] == CLOSE_TAG {
      assert s[1] == '/' && !(OPEN_TAG <= s);
    }
  }

  /** Before the first match, the first character is kept and the pass moves on. */
  lemma StripTagsKeepsFirst(s: string, i: nat)
    requires 0 < i <= |s| && NoMatchBefore(s, i)
    ensures StripTags(s) == [s[0]] + StripTags(s[1..])
    ensures NoMatchBefore(s[1..], i - 1)
  {
    assert !StartsWithTag(s[0..]) && s[0..] == s;
    forall j | 0 <= j < i - 1
      ensures !StartsWithTag(s[1..][j..])
    {
      assert s[1..][j..] == s[j + 1..];
    }
  }

  /** The first character, then the rest of the kept text, is the kept text. */
  lemma KeptPrefix(s: string, i: nat, rest: string)
    requires 0 < i <= |s|
    ensures [s[0]] + (s[1..][..i - 1] + rest) == s[..i] + rest
  {
    assert [s[0]] + s[1..][..i - 1] == s[..i];
  }

  /**
   * At the first position where the pattern matches, the text before it is
   * kept as it is, the match is deleted, and the pass resumes after it.
   */
  lemma {:induction false} FirstMatchDeleted(s: string, i: nat, n: nat)
    requires MatchAt(s, i, n) && NoMatchBefore(s, i)
    ensures StripTags(s) == s[..i] + StripTags(s[i + n..])
    decreases i
  {
    if i == 0 {
      StripTagsDropsMatch(s, n);
    } else {
      var t := s[1..];
      StripTagsKeepsFirst(s, i);
      assert MatchAt(t, i - 1, n) by {
        assert t[i - 1..i - 1 + n] == s[i..i + n];
      }
      FirstMatchDeleted(t, i - 1, n);
      assert t[i - 1 + n..] == s[i + n..];
      KeptPrefix(s, i, StripTags(s[i + n..]));
    }
  }

  /** The substitution is the identity exactly on texts without a match. */
  lemma StripTagsIdentityIff(s: string)
    ensures StripTags(s) == s <==> NoTags(s)
  {
    if NoTags(s) {
      StripTagsKeepsUntagged(s);
    } else {
      var i :| 0 <= i <= |s| && StartsWithTag(s[i..]);
      StripTagsShortens(s, i);
    }
  }

  /** One pass only: deleting the inner `<p>` of `<<p>p>` leaves a new `<p>`. */
  lemma StripTagsIsSinglePass()
    ensures StripTags("<<p>p>") == "<p>"
    ensures !NoTags(StripTags("<<p>p>"))
  {
    var s := "<<p>p>";
    assert s[1] != OPEN_TAG[1] && s[1] != CLOSE_TAG[1];
    assert OPEN_TAG <= s[1..];
    assert s[1..][3..] == "p>";
    assert StripTags("p>") == "p>" by {
      assert "p>"[1..] == ">";
      assert StripTags(">") == ">" by { assert ">"[1..] == []; }
    }
    assert StripTags("<p>") == "" by { assert "<p>"[3..] == []; }
    assert StartsWithTag("<p>"[0..]);
  }

  /**
   * Python's `str.isspace()` characters, the ones `str.strip()` removes:
   * the ASCII blanks among them, and never a character of the tags.
   */
  predicate IsSpace(c: char): (r: bool)
    ensures c == ' ' || c == '\t' || c == '\n' || c == '\r' ==> r
    ensures r ==> c != '<' && c != '>' && c != '/' && c != 'p'
  {
    var n := c as int;
    (0x09 <= n <= 0x0D) || (0x1C <= n <= 0x20) || n == 0x85 || n == 0xA0 ||
    n == 0x1680 || (0x2000 <= n <= 0x200A) || n == 0x2028 || n == 0x2029 ||
    n == 0x202F || n == 0x205F || n == 0x3000
  }

  /** Drops leading whitespace: what is left is a suffix, and only whitespace went. */
  function TrimLeft(s: string): (r: string)
    ensures |r| <= |s| && r == s[|s| - |r|..]
    ensures forall k :: 0 <= k < |s| - |r| ==> IsSpace(s[k])
    ensures r != [] ==> !IsSpace(r[0])
    decreases |s|
  {
    if s != [] && IsSpace(s[0]) then TrimLeft(s[1..]) else s
  }

  /** Drops trailing whitespace: what is left is a prefix, and only whitespace went. */
  function TrimRight(s: string): (r: string)
    ensures |r| <= |s| && r == s[..|r|]
    ensures forall k :: |r| <= k < |s| ==> IsSpace(s[k])
    ensures r != [] ==> !IsSpace(r[|r| - 1])
    decreases |s|
  {
    if s != [] && IsSpace(s[|s| - 1]) then TrimRight(s[..|s| - 1]) else s
  }

  /**
   * Python's `str.strip()`: the result is the slice of `s` left once the
   * whitespace on both sides is gone, and it neither starts nor ends with
   * whitespace.
   */
  function Strip(s: string): (r: string)
    ensures |r| <= |s|
    ensures r != [] ==> !IsSpace(r[0]) && !IsSpace(r[|r| - 1])
    ensures exists i :: SliceBetweenSpaces(s, i, r)
  {
    var left := TrimLeft(s);
    var r := TrimRight(left);
    assert SliceBetweenSpaces(s, |s| - |left|, r);
    r
  }

  /** `r` is `s[i..i + |r|]` and everything of `s` around it is whitespace. */
  predicate SliceBetweenSpaces(s: string, i: int, r: string)
  {
    && 0 <= i <= |s| - |r|
    && r == s[i..i + |r|]
    && (forall k :: 0 <= k < i ==> IsSpace(s[k]))
    && (forall k :: i + |r| <= k < |s| ==> IsSpace(s[k]))
  }

  /** A text with no whitespace at either end is left as it is. */
  lemma StripKeepsInner(s: string)
    requires s != [] ==> !IsSpace(s[0]) && !IsSpace(s[|s| - 1])
    ensures Strip(s) == s
  {
  }

  /** The cleaned summary: tags deleted in one pass, then whitespace stripped. */
  function CleanSummary(s: string): (r: string)
    ensures |r| <= |s|
    ensures r != [] ==> !IsSpace(r[0]) && !IsSpace(r[|r| - 1])
  {
    Strip(StripTags(s))
  }

  /** A summary without `<p>` or `</p>` is only stripped of surrounding whitespace. */
  lemma CleanUntaggedIsStrip(s: string)
    requires NoTags(s)
    ensures CleanSummary(s) == Strip(s)
  {
    StripTagsKeepsUntagged(s);
  }
}
