/** The string-normalisation helpers of src/common/utils.js.

    `trim` removes the whitespace at both ends of a string with the global
    replace `/(^\s+)|(\s+$)/g`; `trimAll` trims and then removes every
    remaining whitespace character with `/\s/g`. Both are modelled by their
    effect on the string; the `\s` class is `IsWs`. */
module Utils {

  /* ---------------------------------------------------------------------
     The `\s` character class (ECMA-262, WhiteSpace and LineTerminator)
     --------------------------------------------------------------------- */

  /** Unicode general category Zs (space separators). */
  predicate IsSpaceSeparator(c: char) {
    || c == ' '
    || c == '\U{00A0}'
    || c == '\U{1680}'
    || ('\U{2000}' <= c <= '\U{200A}')
    || c == '\U{202F}'
    || c == '\U{205F}'
    || c == '\U{3000}'
  }

  /** The WhiteSpace production: TAB, VT, FF, ZWNBSP and every Zs code point. */
  predicate IsWhiteSpace(c: char) {
    || c == '\t'
    || c == '\U{000B}'
    || c == '\U{000C}'
    || c == '\U{FEFF}'
    || IsSpaceSeparator(c)
  }

  /** The LineTerminator production: LF, CR, LINE SEPARATOR, PARAGRAPH SEPARATOR. */
  predicate IsLineTerminator(c: char) {
    c == '\n' || c == '\r' || c == '\U{2028}' || c == '\U{2029}'
  }

  /** What `\s` matches in a JavaScript regular expression. Every such
      character lies in the Basic Multilingual Plane outside the surrogate
      range, so it is a single UTF-16 code unit. */
  predicate IsWs(c: char)
    ensures IsWs(c) ==> c as int < 0xD800 || 0xE000 <= c as int < 0x1_0000
  {
    IsWhiteSpace(c) || IsLineTerminator(c)
  }

  /** Every character of `s` is whitespace (vacuously true of ""). */
  predicate AllWs(s: string) {
    forall i :: 0 <= i < |s| ==> IsWs(s[i])
  }

  /** No character of `s` is whitespace. */
  predicate NoWs(s: string) {
    forall i :: 0 <= i < |s| ==> !IsWs(s[i])
  }

  /** `s` neither starts nor ends with whitespace. */
  predicate NoOuterWs(s: string) {
    s == [] || (!IsWs(s[0]) && !IsWs(s[|s| - 1]))
  }

  /* ---------------------------------------------------------------------
     The two runs of outer whitespace
     --------------------------------------------------------------------- */

  /** Length of the longest all-whitespace prefix of `s`: what `^\s+` matches. */
  function LeadingWs(s: string): (n: nat)
    ensures n <= |s|
  {
    if s == [] || !IsWs(s[0]) then 0 else 1 + LeadingWs(s[1..])
  }

  /** Length of the longest all-whitespace suffix of `s`. */
  function TrailingWs(s: string): (n: nat)
    ensures n <= |s|
  {
    if s == [] || !IsWs(s[|s| - 1]) then 0 else 1 + TrailingWs(s[..|s| - 1])
  }

  /** The leading run is whitespace and cannot be extended. */
  lemma {:induction false} LeadingWsMaximal(s: string)
    ensures AllWs(s[..LeadingWs(s)])
    ensures LeadingWs(s) < |s| ==> !IsWs(s[LeadingWs(s)])
  {
    if s != [] && IsWs(s[0]) {
      var n := LeadingWs(s);
      LeadingWsMaximal(s[1..]);
      forall i | 0 <= i < n ensures IsWs(s[..n][i]) {
        if i > 0 {
          assert s[..n][i] == s[1..][..n - 1][i - 1];
        }
      }
      if n < |s| {
        assert s[n] == s[1..][n - 1];
      }
    }
  }

  /** The trailing run is whitespace and cannot be extended. */
  lemma {:induction false} TrailingWsMaximal(s: string)
    ensures AllWs(s[|s| - TrailingWs(s)..])
    ensures TrailingWs(s) < |s| ==> !IsWs(s[|s| - TrailingWs(s) - 1])
  {
    if s != [] && IsWs(s[|s| - 1]) {
      var n := TrailingWs(s);
      var init := s[..|s| - 1];
      TrailingWsMaximal(init);
      var run, initRun := s[|s| - n..], init[|init| - (n - 1)..];
      forall i | 0 <= i < n ensures IsWs(run[i]) {
        if i < n - 1 {
          assert run[i] == initRun[i];
        }
      }
      if n < |s| {
        assert s[|s| - n - 1] == init[|init| - (n - 1) - 1];
      }
    }
  }

  /** A whitespace prefix followed by a non-whitespace character (or by
      nothing) is exactly the leading run. */
  lemma {:induction false} LeadingWsOf(pre: string, t: string)
    requires AllWs(pre)
    requires t == [] || !IsWs(t[0])
    ensures LeadingWs(pre + t) == |pre|
  {
    if pre == [] {
      assert pre + t == t;
    } else {
      assert (pre + t)[0] == pre[0];
      assert (pre + t)[1..] == pre[1..] + t;
      assert AllWs(pre[1..]) by {
        forall i | 0 <= i < |pre[1..]| ensures IsWs(pre[1..][i]) {
          assert pre[1..][i] == pre[i + 1];
        }
      }
      LeadingWsOf(pre[1..], t);
    }
  }

  /** A non-whitespace character (or nothing) followed by a whitespace
      suffix: the suffix is exactly the trailing run. */
  lemma {:induction false} TrailingWsOf(t: string, post: string)
    requires AllWs(post)
    requires t == [] || !IsWs(t[|t| - 1])
    ensures TrailingWs(t + post) == |post|
  {
    if post == [] {
      assert t + post == t;
    } else {
      var init := post[..|post| - 1];
      assert (t + post)[|t + post| - 1] == post[|post| - 1];
      assert (t + post)[..|t + post| - 1] == t + init;
      assert AllWs(init) by {
        forall i | 0 <= i < |init| ensures IsWs(init[i]) {
          assert init[i] == post[i];
        }
      }
      TrailingWsOf(t, init);
    }
  }

  /** Unless the string is all whitespace, the two runs are separated by at
      least one character, and the characters next to the cuts are not
      whitespace. */
  lemma TrimCuts(s: string)
    requires LeadingWs(s) < |s|
    ensures LeadingWs(s) < |s| - TrailingWs(s)
    ensures !IsWs(s[LeadingWs(s)]) && !IsWs(s[|s| - TrailingWs(s) - 1])
  {
    LeadingWsMaximal(s);
    TrailingWsMaximal(s);
  }

  /* ---------------------------------------------------------------------
     trim (src/common/utils.js:8-11)
     --------------------------------------------------------------------- */

  /** `trim(str)`: the text between the leading and the trailing whitespace
      run; "" when the whole string is whitespace. */
  function Trim(s: string): (r: string)
    ensures |r| <= |s|
    ensures NoOuterWs(r)
  {
    var p := LeadingWs(s);
    if p == |s| then []
    else
      TrimCuts(s);
      s[p..|s| - TrailingWs(s)]
  }

  /** The result of `trim` is one contiguous slice `s[p..q]` of the input,
      where `p` is the end of the leading whitespace run, and what was cut
      away on either side is whitespace only. Interior characters, interior
      spaces and line breaks included, are kept as they are. */
  lemma TrimIsSlice(s: string)
    ensures var p := LeadingWs(s); var q := p + |Trim(s)|;
            q <= |s| && Trim(s) == s[p..q] && AllWs(s[..p]) && AllWs(s[q..])
  {
    LeadingWsMaximal(s);
    TrailingWsMaximal(s);
    if LeadingWs(s) < |s| {
      TrimCuts(s);
    }
  }

  /** Converse of TrimIsSlice: whitespace, then a core that neither starts
      nor ends with whitespace, then whitespace, trims to exactly that core.
      Together the two lemmas characterise `trim`. */
  lemma TrimUnique(pre: string, t: string, post: string)
    requires AllWs(pre) && AllWs(post)
    requires NoOuterWs(t)
    ensures Trim(pre + t + post) == t
  {
    var s := pre + t + post;
    if t == [] {
      assert AllWs(s) by {
        forall i | 0 <= i < |s| ensures IsWs(s[i]) {
          if i < |pre| {
            assert s[i] == pre[i];
          } else {
            assert s[i] == post[i - |pre|];
          }
        }
      }
      assert s + [] == s;
      LeadingWsOf(s, []);
    } else {
      assert s == pre + (t + post);
      assert (t + post)[0] == t[0];
      LeadingWsOf(pre, t + post);
      assert s == (pre + t) + post;
      assert (pre + t)[|pre + t| - 1] == t[|t| - 1];
      TrailingWsOf(pre + t, post);
      assert s[|pre|..|s| - |post|] == t;
    }
  }

  /** `trim` is idempotent. */
  lemma TrimIdempotent(s: string)
    ensures Trim(Trim(s)) == Trim(s)
  {
    assert [] + Trim(s) + [] == Trim(s);
    TrimUnique([], Trim(s), []);
  }

  /** A string whose first and last characters are not whitespace (or the
      empty string) is returned unchanged. */
  lemma TrimKeepsTrimmed(s: string)
    requires NoOuterWs(s)
    ensures Trim(s) == s
  {
    assert [] + s + [] == s;
    TrimUnique([], s, []);
  }

  /** `trim` yields "" exactly when the input is whitespace only (or empty). */
  lemma TrimEmptyIffAllWs(s: string)
    ensures Trim(s) == [] <==> AllWs(s)
  {
    if AllWs(s) {
      assert s + [] + [] == s;
      TrimUnique(s, [], []);
    }
    if Trim(s) == [] {
      if LeadingWs(s) < |s| {
        TrimCuts(s);
      }
      LeadingWsMaximal(s);
      assert s[..|s|] == s;
    }
  }

  /* ---------------------------------------------------------------------
     The global replace of `trim`, as a left-to-right scan
     --------------------------------------------------------------------- */

  /** Length of the match of `(^\s+)|(\s+$)` starting at index `i` of `s`,
      0 when there is none. The first alternative can only match at index 0
      (no `m` flag), greedily taking the whole leading run; the second
      matches only where everything from `i` to the end is whitespace, and
      then takes it all. Both need at least one character. */
  function MatchAt(s: string, i: nat): (m: nat)
    requires i <= |s|
    ensures i + m <= |s|
  {
    var lead := LeadingWs(s);
    if i == 0 && lead > 0 then lead
    else if i < |s| && AllWs(s[i..]) then |s| - i
    else 0
  }

  /** `s.replace(re, '')` for the global pattern above, from `lastIndex`
      `i` on: each match is dropped and the search resumes after it; each
      character where no match starts is kept. */
  function RegexStripScan(s: string, i: nat): (r: string)
    requires i <= |s|
    ensures |r| <= |s| - i
    decreases |s| - i
  {
    if i == |s| then []
    else
      var m := MatchAt(s, i);
      if m > 0 then RegexStripScan(s, i + m) else [s[i]] + RegexStripScan(s, i + 1)
  }

  /** Past index 0 only the second alternative can match: the scan keeps
      everything up to the trailing run and drops the run. */
  lemma {:induction false} ScanAfterStart(s: string, i: nat)
    requires 0 < i <= |s|
    ensures var e := |s| - TrailingWs(s);
            RegexStripScan(s, i) == if i < e then s[i..e] else []
    decreases |s| - i
  {
    var e := |s| - TrailingWs(s);
    TrailingWsMaximal(s);
    if i < |s| {
      if i < e {
        assert s[i..][e - 1 - i] == s[e - 1];
        assert MatchAt(s, i) == 0;
        ScanAfterStart(s, i + 1);
        assert s[i..e] == [s[i]] + s[i + 1..e];
      } else {
        assert AllWs(s[i..]) by {
          forall j | 0 <= j < |s| - i ensures IsWs(s[i..][j]) {
            assert s[i..][j] == s[e..][j + i - e];
          }
        }
        assert MatchAt(s, i) == |s| - i;
      }
    }
  }

  /** The regex replace of `trim` (src/common/utils.js:10) computes `Trim`. */
  lemma TrimIsRegexReplace(s: string)
    ensures RegexStripScan(s, 0) == Trim(s)
  {
    var lead := LeadingWs(s);
    if s != [] {
      var e := |s| - TrailingWs(s);
      if lead > 0 {
        assert MatchAt(s, 0) == lead;
        if lead < |s| {
          TrimCuts(s);
          ScanAfterStart(s, lead);
        }
      } else {
        TrimCuts(s);
        assert s[0..][0] == s[0];
        assert MatchAt(s, 0) == 0;
        ScanAfterStart(s, 1);
        assert s[0..e] == [s[0]] + s[1..e];
      }
    }
  }

  /* ---------------------------------------------------------------------
     trimAll (src/common/utils.js:17-20)
     --------------------------------------------------------------------- */

  /** `s.replace(/\s/g, '')`: every whitespace character deleted, the rest
      kept in their order. */
  function RemoveWs(s: string): (r: string)
    ensures |r| <= |s|
  {
    if s == [] then []
    else (if IsWs(s[0]) then [] else [s[0]]) + RemoveWs(s[1..])
  }

  /** Nothing that `\s` matches survives the replace. */
  lemma {:induction false} RemoveWsNoWs(s: string)
    ensures NoWs(RemoveWs(s))
  {
    if s != [] {
      RemoveWsNoWs(s[1..]);
      var h := if IsWs(s[0]) then [] else [s[0]];
      var r := RemoveWs(s[1..]);
      forall i | 0 <= i < |h + r| ensures !IsWs((h + r)[i]) {
        if i >= |h| {
          assert (h + r)[i] == r[i - |h|];
        }
      }
    }
  }

  /** `trimAll(str)`: `trim`, then every remaining whitespace removed. */
  function TrimAll(s: string): (r: string)
    ensures |r| <= |s|
    ensures NoWs(r)
  {
    RemoveWsNoWs(Trim(s));
    RemoveWs(Trim(s))
  }

  /** Deleting whitespace distributes over concatenation, so the kept
      characters keep their relative order. */
  lemma {:induction false} RemoveWsAppend(a: string, b: string)
    ensures RemoveWs(a + b) == RemoveWs(a) + RemoveWs(b)
  {
    if a == [] {
      assert a + b == b;
    } else {
      assert (a + b)[0] == a[0];
      assert (a + b)[1..] == a[1..] + b;
      RemoveWsAppend(a[1..], b);
      var h := if IsWs(a[0]) then [] else [a[0]];
      calc {
        RemoveWs(a + b);
        h + RemoveWs(a[1..] + b);
        h + (RemoveWs(a[1..]) + RemoveWs(b));
        (h + RemoveWs(a[1..])) + RemoveWs(b);
      }
    }
  }

  /** A whitespace-only string loses everything. */
  lemma {:induction false} RemoveWsOfAllWs(s: string)
    requires AllWs(s)
    ensures RemoveWs(s) == []
  {
    if s != [] {
      assert IsWs(s[0]);
      assert AllWs(s[1..]) by {
        forall i | 0 <= i < |s| - 1 ensures IsWs(s[1..][i]) {
          assert s[1..][i] == s[i + 1];
        }
      }
      RemoveWsOfAllWs(s[1..]);
    }
  }

  /** A string without whitespace is kept as it is. */
  lemma {:induction false} RemoveWsOfNoWs(s: string)
    requires NoWs(s)
    ensures RemoveWs(s) == s
  {
    if s != [] {
      assert !IsWs(s[0]);
      assert NoWs(s[1..]) by {
        forall i | 0 <= i < |s| - 1 ensures !IsWs(s[1..][i]) {
          assert s[1..][i] == s[i + 1];
        }
      }
      RemoveWsOfNoWs(s[1..]);
      assert s == [s[0]] + s[1..];
    }
  }

  /** Every non-whitespace character occurs as often in the result as in the
      input, and whitespace does not occur at all. */
  lemma {:induction false} RemoveWsCounts(s: string, c: char)
    ensures multiset(RemoveWs(s))[c] == if IsWs(c) then 0 else multiset(s)[c]
  {
    if s != [] {
      RemoveWsCounts(s[1..], c);
      assert s == [s[0]] + s[1..];
      assert multiset(s) == multiset([s[0]]) + multiset(s[1..]);
    }
  }

  /** Whitespace around a string disappears with the rest of the whitespace. */
  lemma RemoveWsOfWsFrame(pre: string, mid: string, post: string)
    requires AllWs(pre) && AllWs(post)
    ensures RemoveWs(pre + mid + post) == RemoveWs(mid)
  {
    RemoveWsAppend(pre + mid, post);
    RemoveWsAppend(pre, mid);
    RemoveWsOfAllWs(pre);
    RemoveWsOfAllWs(post);
    assert [] + RemoveWs(mid) + [] == RemoveWs(mid);
  }

  /** The leading `trim` in `trimAll` makes no difference: the result is the
      input with all whitespace removed. */
  lemma TrimAllIsRemoveWs(s: string)
    ensures TrimAll(s) == RemoveWs(s)
  {
    TrimIsSlice(s);
    var p := LeadingWs(s);
    var q := p + |Trim(s)|;
    assert s == s[..p] + s[p..q] + s[q..];
    RemoveWsOfWsFrame(s[..p], s[p..q], s[q..]);
  }

  /** `trimAll` is idempotent. */
  lemma TrimAllIdempotent(s: string)
    ensures TrimAll(TrimAll(s)) == TrimAll(s)
  {
    TrimAllIsRemoveWs(TrimAll(s));
    RemoveWsOfNoWs(TrimAll(s));
  }

  /** Trimming the result of `trimAll` changes nothing. */
  lemma TrimOfTrimAll(s: string)
    ensures Trim(TrimAll(s)) == TrimAll(s)
  {
    var r := TrimAll(s);
    assert r != [] ==> !IsWs(r[0]) && !IsWs(r[|r| - 1]);
    TrimKeepsTrimmed(r);
  }
}
