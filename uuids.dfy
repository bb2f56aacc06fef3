/**
 * The `id_re` pattern and the rewriting `urlparse_json` does with its first
 * match: the pattern is five groups of 8, 4, 4, 4 and 12 hexadecimal digits
 * (either case) joined by `-`, searched for anywhere in the path, and every
 * occurrence of the matched text is replaced (Python's `str.replace`).
 */
module Uuids {
  import opened Wrappers
  import opened Strings

  const UuidLength: nat := 36

  predicate IsHyphenPosition(i: int) { i == 8 || i == 13 || i == 18 || i == 23 }

  /** `s` is matched in full by the `id_re` pattern. */
  predicate IsUuid(s: string)
  {
    |s| == UuidLength &&
    forall i :: 0 <= i < UuidLength ==> if IsHyphenPosition(i) then s[i] == '-' else IsHexDigit(s[i])
  }

  /** A match of the pattern starts at position `i` of `s`. */
  predicate UuidAt(s: string, i: nat)
  {
    i + UuidLength <= |s| && IsUuid(s[i..i + UuidLength])
  }

  /** `id_re.search(s)`: the start of the leftmost match, or None when there is none. */
  function FindUuid(s: string): (r: Option<nat>)
    ensures r.Some? ==> UuidAt(s, r.value)
    ensures r.Some? ==> forall j: nat :: j < r.value ==> !UuidAt(s, j)
    ensures r.None? ==> forall j: nat :: !UuidAt(s, j)
    decreases |s|
  {
    if |s| < UuidLength then None
    else if IsUuid(s[..UuidLength]) then Some(0)
    else
      var r := FindUuid(s[1..]);
      assert forall j: nat :: 1 <= j ==> (UuidAt(s, j) <==> UuidAt(s[1..], j - 1)) by {
        forall j: nat | 1 <= j ensures UuidAt(s, j) <==> UuidAt(s[1..], j - 1) {
          if j + UuidLength <= |s| {
            assert s[1..][j - 1..j - 1 + UuidLength] == s[j..j + UuidLength];
          }
        }
      }
      assert !UuidAt(s, 0) by {
        assert s[0..UuidLength] == s[..UuidLength];
      }
      match r
      case None => None
      case Some(i) => Some(i + 1)
  }

  /** `s.replace(pat, rep)` for a non-empty pattern: leftmost, non-overlapping occurrences. */
  function ReplaceAll(s: string, pat: string, rep: string): string
    requires |pat| > 0
    decreases |s|
  {
    if |s| < |pat| then s
    else if s[..|pat|] == pat then rep + ReplaceAll(s[|pat|..], pat, rep)
    else [s[0]] + ReplaceAll(s[1..], pat, rep)
  }

  /** `pat` occurs in `s` at position `i`. */
  predicate OccursAt(s: string, pat: string, i: nat)
  {
    i + |pat| <= |s| && s[i..i + |pat|] == pat
  }

  /** A string in which the pattern does not occur is left unchanged. */
  lemma {:induction false} ReplaceAllAbsent(s: string, pat: string, rep: string)
    requires |pat| > 0
    requires forall i: nat :: !OccursAt(s, pat, i)
    ensures ReplaceAll(s, pat, rep) == s
    decreases |s|
  {
    if |s| >= |pat| {
      assert !OccursAt(s, pat, 0);
      forall i: nat ensures !OccursAt(s[1..], pat, i) {
        assert !OccursAt(s, pat, i + 1);
        if i + |pat| <= |s| - 1 {
          assert s[1..][i..i + |pat|] == s[i + 1..i + 1 + |pat|];
        }
      }
      ReplaceAllAbsent(s[1..], pat, rep);
    }
  }

  /**
   * A prefix of the rewritten string either is the same prefix of the
   * original, or already holds the first character of the replacement.
   */
  lemma {:induction false} ReplaceAllPrefix(t: string, pat: string, rep: string, n: nat)
    requires |pat| > 0 && |rep| > 0
    requires n <= |t| && n <= |ReplaceAll(t, pat, rep)|
    ensures ReplaceAll(t, pat, rep)[..n] == t[..n] || rep[0] in ReplaceAll(t, pat, rep)[..n]
    decreases |t|
  {
    var r := ReplaceAll(t, pat, rep);
    if n == 0 || |t| < |pat| {
    } else if t[..|pat|] == pat {
      assert r[..n][0] == rep[0];
    } else {
      var r' := ReplaceAll(t[1..], pat, rep);
      ReplaceAllPrefix(t[1..], pat, rep, n - 1);
      assert r[..n] == [t[0]] + r'[..n - 1];
      assert t[..n] == [t[0]] + t[1..][..n - 1];
    }
  }

  /**
   * After the rewrite the pattern occurs nowhere, provided the replacement is
   * no longer than the pattern and neither of its end characters occurs in it.
   */
  lemma {:induction false} ReplaceAllRemoves(s: string, pat: string, rep: string)
    requires |pat| >= |rep| > 0
    requires rep[0] !in pat && rep[|rep| - 1] !in pat
    ensures forall i: nat :: !OccursAt(ReplaceAll(s, pat, rep), pat, i)
    decreases |s|
  {
    if |s| < |pat| {
      assert |ReplaceAll(s, pat, rep)| < |pat|;
    } else if s[..|pat|] == pat {
      ReplaceAllRemoves(s[|pat|..], pat, rep);
      NoMatchAfterReplacement(rep, ReplaceAll(s[|pat|..], pat, rep), pat);
    } else {
      ReplaceAllRemoves(s[1..], pat, rep);
      NoMatchAfterKept(s, pat, rep);
    }
  }

  /** The replacement followed by text without the pattern holds no occurrence of it. */
  lemma NoMatchAfterReplacement(rep: string, rest: string, pat: string)
    requires |pat| >= |rep| > 0 && rep[|rep| - 1] !in pat
    requires forall i: nat :: !OccursAt(rest, pat, i)
    ensures forall i: nat :: !OccursAt(rep + rest, pat, i)
  {
    var r := rep + rest;
    forall i: nat | i + |pat| <= |r| ensures !OccursAt(r, pat, i) {
      var w := r[i..i + |pat|];
      if i < |rep| {
        // the window covers the replacement's last character
        assert w[|rep| - 1 - i] == rep[|rep| - 1];
      } else {
        assert w == rest[i - |rep|..i - |rep| + |pat|];
        assert !OccursAt(rest, pat, i - |rep|);
      }
    }
  }

  /**
   * Keeping a first character that does not start a match, in front of a
   * rewritten rest without the pattern, adds no occurrence of it.
   */
  lemma NoMatchAfterKept(s: string, pat: string, rep: string)
    requires |pat| >= |rep| > 0 && rep[0] !in pat
    requires |s| >= |pat| && s[..|pat|] != pat
    requires forall i: nat :: !OccursAt(ReplaceAll(s[1..], pat, rep), pat, i)
    ensures forall i: nat :: !OccursAt([s[0]] + ReplaceAll(s[1..], pat, rep), pat, i)
  {
    var rest := ReplaceAll(s[1..], pat, rep);
    var r := [s[0]] + rest;
    FirstWindowNoMatch(s, pat, rep);
    forall i: nat | 0 < i && i + |pat| <= |r| ensures !OccursAt(r, pat, i) {
      assert r[i..i + |pat|] == rest[i - 1..i - 1 + |pat|];
      assert !OccursAt(rest, pat, i - 1);
    }
  }

  /**
   * The first window after a kept character is either the original prefix,
   * which did not match, or holds the replacement's first character.
   */
  lemma FirstWindowNoMatch(s: string, pat: string, rep: string)
    requires |pat| >= |rep| > 0 && rep[0] !in pat
    requires |s| >= |pat| && s[..|pat|] != pat
    ensures !OccursAt([s[0]] + ReplaceAll(s[1..], pat, rep), pat, 0)
  {
    var rest := ReplaceAll(s[1..], pat, rep);
    var r := [s[0]] + rest;
    if |pat| <= |r| {
      ReplaceAllPrefix(s[1..], pat, rep, |pat| - 1);
      var w := r[0..|pat|];
      assert w == [s[0]] + rest[..|pat| - 1];
      assert s[..|pat|] == [s[0]] + s[1..][..|pat| - 1];
      if rest[..|pat| - 1] == s[1..][..|pat| - 1] {
        assert w == s[..|pat|];
      } else {
        assert rep[0] in w;
      }
    }
  }



  /** The replacement's first character appears only where the original had it or a replacement was made. */
  lemma {:induction false} ReplaceAllMarker(t: string, pat: string, rep: string)
    requires |pat| > 0 && |rep| > 0
    ensures rep[0] in ReplaceAll(t, pat, rep) ==> rep[0] in t || |ReplaceAll(t, pat, rep)| >= |rep|
    decreases |t|
  {
    if |t| >= |pat| && t[..|pat|] != pat {
      ReplaceAllMarker(t[1..], pat, rep);
      assert forall c :: c in t[1..] ==> c in t;
    }
  }

  /** A string without the pattern's first character is left unchanged. */
  lemma {:induction false} ReplaceAllUntouched(s: string, pat: string, rep: string)
    requires |pat| > 0 && pat[0] !in s
    ensures ReplaceAll(s, pat, rep) == s
    decreases |s|
  {
    if |s| >= |pat| {
      assert s[..|pat|][0] == s[0];
      ReplaceAllUntouched(s[1..], pat, rep);
      assert s == [s[0]] + s[1..];
    }
  }

  /**
   * Replacing the replacement back by the pattern restores the string,
   * provided the replacement's first character does not occur in it.
   */
  lemma {:induction false} ReplaceAllInverse(s: string, pat: string, rep: string)
    requires |pat| > 0 && |rep| > 0
    requires rep[0] !in s
    ensures ReplaceAll(ReplaceAll(s, pat, rep), rep, pat) == s
    decreases |s|
  {
    var r := ReplaceAll(s, pat, rep);
    if |s| < |pat| {
      ReplaceAllUntouched(s, rep, pat);
    } else if s[..|pat|] == pat {
      var rest := s[|pat|..];
      assert forall c :: c in rest ==> c in s;
      ReplaceAllInverse(rest, pat, rep);
      assert r[..|rep|] == rep;
      assert r[|rep|..] == ReplaceAll(rest, pat, rep);
      assert s == pat + rest;
    } else {
      var rest := s[1..];
      var r' := ReplaceAll(rest, pat, rep);
      assert forall c :: c in rest ==> c in s;
      ReplaceAllInverse(rest, pat, rep);
      assert r == [s[0]] + r';
      if |r| < |rep| {
        ReplaceAllUntouched(r', rep, pat) by {
          ReplaceAllMarker(rest, pat, rep);
        }
        ReplaceAllUntouched(r, rep, pat) by {
          assert rep[0] !in r;
        }
      } else {
        assert r[..|rep|][0] == s[0];
        assert r[1..] == r';
      }
      assert s == [s[0]] + rest;
    }
  }
}
