/** The parts of Python's `str` used by both scripts: `isspace`, `strip()`,
    `find`, `split(sep)` and `sep.join(parts)`, on strings as `seq<char>`. */
module PyText {

  datatype Option<T> = None | Some(value: T)

  /** `c.isspace()`: the characters that `str.strip()` with no argument removes. */
  predicate IsSpace(c: char)
  {
    ('\t' <= c <= '\r') || ('\U{1C}' <= c <= '\U{1F}') || c == ' '
    || c == '\U{85}' || c == '\U{A0}' || c == '\U{1680}'
    || ('\U{2000}' <= c <= '\U{200A}') || c == '\U{2028}' || c == '\U{2029}'
    || c == '\U{202F}' || c == '\U{205F}' || c == '\U{3000}'
  }

  /** The length of the whitespace run at the start of `s`. */
  function LeadingSpaces(s: string): (n: nat)
    ensures n <= |s|
    ensures forall k :: 0 <= k < n ==> IsSpace(s[k])
    ensures n < |s| ==> !IsSpace(s[n])
  {
    if |s| > 0 && IsSpace(s[0]) then 1 + LeadingSpaces(s[1..]) else 0
  }

  /** The length of the whitespace run at the end of `s`. */
  function TrailingSpaces(s: string): (n: nat)
    ensures n <= |s|
    ensures forall k :: |s| - n <= k < |s| ==> IsSpace(s[k])
    ensures n < |s| ==> !IsSpace(s[|s| - 1 - n])
  {
    if |s| > 0 && IsSpace(s[|s| - 1]) then 1 + TrailingSpaces(s[..|s| - 1]) else 0
  }

  /** `s.strip()`: the infix of `s` left once the whitespace at both ends is removed. */
  function Strip(s: string): (r: string)
    ensures |r| <= |s|
  {
    var t := s[LeadingSpaces(s)..];
    t[..|t| - TrailingSpaces(t)]
  }

  /** `s.strip()` is the infix of `s` that starts after the leading whitespace; every
      character outside it is whitespace; it is empty exactly when `s` is all
      whitespace, and otherwise it neither starts nor ends with whitespace. */
  lemma StripSpec(s: string)
    ensures |Strip(s)| <= |s| - LeadingSpaces(s)
    ensures Strip(s) == s[LeadingSpaces(s)..LeadingSpaces(s) + |Strip(s)|]
    ensures forall k :: 0 <= k < |s| && !(LeadingSpaces(s) <= k < LeadingSpaces(s) + |Strip(s)|) ==> IsSpace(s[k])
    ensures Strip(s) == "" <==> forall k :: 0 <= k < |s| ==> IsSpace(s[k])
    ensures Strip(s) != "" ==> !IsSpace(Strip(s)[0]) && !IsSpace(Strip(s)[|Strip(s)| - 1])
  {
    var i := LeadingSpaces(s);
    if i < |s| {
      assert !IsSpace(s[i]);
    }
  }

  /** Every character of `s.strip()` is a character of `s`. */
  lemma StripChars(s: string, c: char)
    requires c in Strip(s)
    ensures c in s
  {
    var r, i := Strip(s), LeadingSpaces(s);
    StripSpec(s);
    var k :| 0 <= k < |r| && r[k] == c;
    assert s[i + k] == c;
  }

  /** `w` occurs in `s` starting at index `i`. */
  predicate OccursAt(s: string, w: string, i: int)
  {
    0 <= i && i + |w| <= |s| && s[i..i + |w|] == w
  }

  /** `s.find(w, k)`: the lowest index at or after `k` where `w` occurs in `s`, if any. */
  function FindFrom(s: string, w: string, k: nat): (r: Option<nat>)
    ensures r.Some? ==> k <= r.value && r.value + |w| <= |s|
    decreases |s| - k
  {
    if k + |w| > |s| then None
    else if OccursAt(s, w, k) then Some(k)
    else FindFrom(s, w, k + 1)
  }

  /** `FindFrom` finds an occurrence, the first at or after `k`; when it finds
      none, there is none. */
  lemma {:induction false} FindFromSpec(s: string, w: string, k: nat)
    ensures FindFrom(s, w, k).Some? ==> OccursAt(s, w, FindFrom(s, w, k).value)
    ensures FindFrom(s, w, k).Some? ==> forall j :: k <= j < FindFrom(s, w, k).value ==> !OccursAt(s, w, j)
    ensures FindFrom(s, w, k).None? ==> forall j :: k <= j ==> !OccursAt(s, w, j)
    decreases |s| - k
  {
    if k + |w| <= |s| && !OccursAt(s, w, k) {
      FindFromSpec(s, w, k + 1);
    }
  }

  /** `FindFrom` returns exactly the first occurrence at or after `k`. */
  lemma {:induction false} FindFromFirst(s: string, w: string, k: nat, i: nat)
    requires k <= i && OccursAt(s, w, i)
    requires forall j :: k <= j < i ==> !OccursAt(s, w, j)
    ensures FindFrom(s, w, k) == Some(i)
    decreases i - k
  {
    if k < i {
      FindFromFirst(s, w, k + 1, i);
    }
  }

  /** `s.split(w)` for a non-empty separator: the pieces between the
      non-overlapping occurrences of `w`, found from left to right. */
  function Split(s: string, w: string): (parts: seq<string>)
    requires |w| > 0
    ensures |parts| >= 1
    decreases |s|
  {
    match FindFrom(s, w, 0)
    case None => [s]
    case Some(i) => [s[..i]] + Split(s[i + |w|..], w)
  }

  /** `sep.join(parts)`. */
  function Join(parts: seq<string>, sep: string): string
  {
    if |parts| == 0 then ""
    else if |parts| == 1 then parts[0]
    else parts[0] + sep + Join(parts[1..], sep)
  }

  /** `w` does not occur anywhere in `s`. */
  ghost predicate NoOccurrence(s: string, w: string)
  {
    forall j :: 0 <= j ==> !OccursAt(s, w, j)
  }

  /** `parts` cuts `s` at `w` from left to right: joined with `w` the parts give
      back `s`; no occurrence of `w` starts inside a part and ends in the
      separator that follows it; and the last part holds no occurrence at all. */
  ghost predicate IsSplitOf(parts: seq<string>, s: string, w: string)
  {
    |parts| >= 1 && Join(parts, w) == s
    && (forall k, j :: 0 <= k < |parts| - 1 && 0 <= j < |parts[k]| ==> !OccursAt(parts[k] + w, w, j))
    && NoOccurrence(parts[|parts| - 1], w)
  }

  /** An occurrence that fits inside a prefix of `s` is the same in the prefix and in `s`. */
  lemma PrefixOccurrence(s: string, n: nat, w: string, j: int)
    requires n <= |s| && j + |w| <= n
    ensures OccursAt(s[..n], w, j) <==> OccursAt(s, w, j)
  {
    if 0 <= j {
      assert s[..n][j..j + |w|] == s[j..j + |w|];
    }
  }

  /** `sep.join` of a first part and at least one more. */
  lemma JoinCons(x: string, tail: seq<string>, sep: string)
    requires |tail| >= 1
    ensures Join([x] + tail, sep) == x + sep + Join(tail, sep)
  {
    assert ([x] + tail)[1..] == tail;
  }

  /** `Split` partitions its input exactly at the separator. */
  lemma {:induction false} SplitIsSplitOf(s: string, w: string)
    requires |w| > 0
    ensures IsSplitOf(Split(s, w), s, w)
    decreases |s|
  {
    FindFromSpec(s, w, 0);
    match FindFrom(s, w, 0)
    case None =>
    case Some(i) =>
      var rest := s[i + |w|..];
      SplitIsSplitOf(rest, w);
      var tail := Split(rest, w);
      var parts := Split(s, w);
      assert parts == [s[..i]] + tail;
      JoinCons(s[..i], tail, w);
      assert s == s[..i] + w + rest by {
        assert s == s[..i] + s[i..i + |w|] + s[i + |w|..];
      }
      assert parts[0] + w == s[..i + |w|];
      forall k, j | 0 <= k < |parts| - 1 && 0 <= j < |parts[k]|
        ensures !OccursAt(parts[k] + w, w, j)
      {
        if k == 0 {
          PrefixOccurrence(s, i + |w|, w, j);
        } else {
          assert parts[k] == tail[k - 1];
        }
      }
      assert parts[|parts| - 1] == tail[|tail| - 1];
  }

  /** The partition is unique: any left-to-right cut of `s` at `w` is `Split(s, w)`. */
  lemma {:induction false} SplitOfIsSplit(parts: seq<string>, s: string, w: string)
    requires |w| > 0 && IsSplitOf(parts, s, w)
    ensures parts == Split(s, w)
    decreases |parts|
  {
    if |parts| == 1 {
      FindFromSpec(s, w, 0);
      assert FindFrom(s, w, 0).None?;
    } else {
      var p, tail := parts[0], parts[1..];
      var rest := Join(tail, w);
      assert parts == [p] + tail;
      assert s == p + w + rest;
      assert s[|p|..|p| + |w|] == w;
      assert p + w == s[..|p| + |w|];
      forall j | 0 <= j < |p| ensures !OccursAt(s, w, j) {
        PrefixOccurrence(s, |p| + |w|, w, j);
      }
      FindFromFirst(s, w, 0, |p|);
      assert s[|p| + |w|..] == rest;
      assert s[..|p|] == p;
      forall k, j | 0 <= k < |tail| - 1 && 0 <= j < |tail[k]|
        ensures !OccursAt(tail[k] + w, w, j)
      {
        assert tail[k] == parts[k + 1];
      }
      assert tail[|tail| - 1] == parts[|parts| - 1];
      SplitOfIsSplit(tail, rest, w);
    }
  }

  /** A one-character occurrence is that character. */
  lemma OccursAtChar(s: string, c: char, j: int)
    ensures OccursAt(s, [c], j) <==> 0 <= j < |s| && s[j] == c
  {
    if 0 <= j < |s| {
      assert s[j..j + 1] == [s[j]];
    }
  }

  /** Splitting on one character: no part holds it, and there is one part more
      than the number of times it occurs. */
  lemma {:induction false} SplitOnChar(s: string, c: char)
    ensures forall k :: 0 <= k < |Split(s, [c])| ==> c !in Split(s, [c])[k]
    ensures |Split(s, [c])| == multiset(s)[c] + 1
    decreases |s|
  {
    var parts := Split(s, [c]);
    FindFromSpec(s, [c], 0);
    match FindFrom(s, [c], 0)
    case None =>
      forall j | 0 <= j < |s| ensures s[j] != c {
        OccursAtChar(s, c, j);
      }
      assert multiset(s)[c] == 0;
    case Some(i) =>
      var rest := s[i + 1..];
      SplitOnChar(rest, c);
      assert parts == [s[..i]] + Split(rest, [c]);
      forall j | 0 <= j < i ensures s[j] != c {
        OccursAtChar(s, c, j);
      }
      OccursAtChar(s, c, i);
      assert c !in s[..i];
      assert s == s[..i] + [c] + rest;
      assert multiset(s) == multiset(s[..i]) + multiset([c]) + multiset(rest);
      forall k | 0 <= k < |parts| ensures c !in parts[k] {
        if k > 0 {
          assert parts[k] == Split(rest, [c])[k - 1];
        }
      }
  }

  /** Every character of a part of `s.split(w)` is a character of `s`. */
  lemma {:induction false} SplitChars(s: string, w: string, k: nat, c: char)
    requires |w| > 0 && k < |Split(s, w)| && c in Split(s, w)[k]
    ensures c in s
    decreases |s|
  {
    match FindFrom(s, w, 0)
    case None =>
    case Some(i) =>
      var rest := s[i + |w|..];
      if k == 0 {
        assert c in s[..i];
      } else {
        assert Split(s, w)[k] == Split(rest, w)[k - 1];
        SplitChars(rest, w, k - 1, c);
      }
  }

  /** Joining one part more appends the separator and that part. */
  lemma {:induction false} JoinSnoc(parts: seq<string>, x: string, sep: string)
    requires |parts| > 0
    ensures Join(parts + [x], sep) == Join(parts, sep) + sep + x
    decreases |parts|
  {
    if |parts| > 1 {
      assert (parts + [x])[1..] == parts[1..] + [x];
      JoinSnoc(parts[1..], x, sep);
    }
  }

  /** Two fields joined with a separator absent from both split back into those fields. */
  lemma SplitTwoFields(a: string, b: string, w: string)
    requires |w| > 0
    requires forall j :: 0 <= j < |a| ==> !OccursAt(a + w, w, j)
    requires NoOccurrence(b, w)
    ensures Split(a + w + b, w) == [a, b]
  {
    var parts := [a, b];
    assert parts[1..] == [b];
    assert Join(parts, w) == a + w + b;
    assert IsSplitOf(parts, a + w + b, w);
    SplitOfIsSplit(parts, a + w + b, w);
  }

  /** A string that lacks some character of `w` holds no occurrence of `w`. */
  lemma MissingCharNoOccurrence(s: string, w: string, k: nat, j: int)
    requires k < |w| && w[k] !in s
    ensures !OccursAt(s, w, j)
  {
    if 0 <= j && j + |w| <= |s| {
      assert s[j..j + |w|][k] == s[j + k];
    }
  }

  /** Splitting on a character gives two fields exactly when the character
      occurs once; the text is then the first field, the character, the second. */
  lemma SplitOnCharTwo(s: string, c: char)
    ensures |Split(s, [c])| == 2 <==> multiset(s)[c] == 1
    ensures |Split(s, [c])| == 2 ==>
      s == Split(s, [c])[0] + [c] + Split(s, [c])[1]
      && c !in Split(s, [c])[0] && c !in Split(s, [c])[1]
  {
    var parts := Split(s, [c]);
    SplitOnChar(s, c);
    if |parts| == 2 {
      SplitIsSplitOf(s, [c]);
      assert parts[1..] == [parts[1]];
      assert Join(parts, [c]) == parts[0] + [c] + parts[1];
    }
  }

  /** Two fields free of a character, glued by it, split back into those two fields. */
  lemma SplitOnCharPair(a: string, b: string, c: char)
    requires c !in a && c !in b
    ensures Split(a + [c] + b, [c]) == [a, b]
  {
    forall j | 0 <= j < |a| ensures !OccursAt(a + [c], [c], j) {
      OccursAtChar(a + [c], c, j);
      assert (a + [c])[j] == a[j];
    }
    forall j | 0 <= j ensures !OccursAt(b, [c], j) {
      OccursAtChar(b, c, j);
    }
    SplitTwoFields(a, b, [c]);
  }

  /** Splitting on a character gives exactly the fields `a` and `b` when, and
      only when, the text is `a`, the character, `b`, and neither field holds it. */
  lemma SplitOnCharPairIff(s: string, a: string, b: string, c: char)
    ensures Split(s, [c]) == [a, b] <==> s == a + [c] + b && c !in a && c !in b
  {
    SplitOnCharTwo(s, c);
    if s == a + [c] + b && c !in a && c !in b {
      SplitOnCharPair(a, b, c);
    }
  }

  /** A character occurs one time fewer than the number of parts it splits into. */
  lemma CharCountOfSplit(s: string, c: char, n: nat)
    requires |Split(s, [c])| == n
    ensures multiset(s)[c] == n - 1
  {
    SplitOnChar(s, c);
  }

  /** Where `s` and `t` meet at a character that `w` does not hold, no
      occurrence of `w` straddles the seam: every occurrence lies in one of them. */
  lemma OccursInConcat(s: string, t: string, w: string, j: int)
    requires (|s| > 0 && s[|s| - 1] !in w) || (|t| > 0 && t[0] !in w)
    ensures OccursAt(s + t, w, j) <==> OccursAt(s, w, j) || OccursAt(t, w, j - |s|)
  {
    if 0 <= j && j + |w| <= |s| + |t| {
      var win := (s + t)[j..j + |w|];
      if j + |w| <= |s| {
        assert win == s[j..j + |w|];
      } else if j >= |s| {
        assert win == t[j - |s|..j - |s| + |w|];
      } else if |s| > 0 && s[|s| - 1] !in w {
        assert win[|s| - 1 - j] == s[|s| - 1];
        assert w[|s| - 1 - j] in w;
      } else {
        assert win[|s| - j] == t[0];
        assert w[|s| - j] in w;
      }
    }
  }

  /** Two texts free of `w` that meet at a character `w` does not hold make a text free of `w`. */
  lemma NoOccurrenceConcat(s: string, t: string, w: string)
    requires (|s| > 0 && s[|s| - 1] !in w) || (|t| > 0 && t[0] !in w)
    requires NoOccurrence(s, w) && NoOccurrence(t, w)
    ensures NoOccurrence(s + t, w)
  {
    forall j | 0 <= j ensures !OccursAt(s + t, w, j) {
      OccursInConcat(s, t, w, j);
    }
  }

  /** Parts free of `w`, joined by a separator free of `w` whose first and last
      characters `w` does not hold, make a text free of `w`. */
  lemma {:induction false} JoinNoOccurrence(parts: seq<string>, sep: string, w: string)
    requires |w| > 0
    requires |sep| > 0 && sep[0] !in w && sep[|sep| - 1] !in w && NoOccurrence(sep, w)
    requires forall k :: 0 <= k < |parts| ==> NoOccurrence(parts[k], w)
    ensures NoOccurrence(Join(parts, sep), w)
    decreases |parts|
  {
    if |parts| == 0 {
      assert forall j :: 0 <= j ==> !OccursAt(Join(parts, sep), w, j);
    } else if |parts| > 1 {
      var rest := parts[1..];
      JoinNoOccurrence(rest, sep, w);
      NoOccurrenceConcat(sep, Join(rest, sep), w);
      assert (sep + Join(rest, sep))[0] == sep[0];
      NoOccurrenceConcat(parts[0], sep + Join(rest, sep), w);
      assert parts[0] + sep + Join(rest, sep) == parts[0] + (sep + Join(rest, sep));
    }
  }

  /** Parts joined by `w` split back into those parts when `w` holds a marker
      character, at index `k`, that no part holds and that `w` does not repeat before `k`. */
  lemma SplitJoinMarked(parts: seq<string>, w: string, k: nat)
    requires |parts| >= 1 && k < |w|
    requires forall i :: 0 <= i < |parts| ==> w[k] !in parts[i]
    requires forall i :: 0 <= i < k ==> w[i] != w[k]
    ensures Split(Join(parts, w), w) == parts
  {
    forall i, j | 0 <= i < |parts| - 1 && 0 <= j < |parts[i]|
      ensures !OccursAt(parts[i] + w, w, j)
    {
      var p := parts[i];
      if j + |w| <= |p + w| {
        var win := (p + w)[j..j + |w|];
        assert win[k] == (p + w)[j + k];
        if j + k < |p| {
          assert (p + w)[j + k] == p[j + k];
        } else {
          assert (p + w)[j + k] == w[j + k - |p|];
        }
      }
    }
    var last := parts[|parts| - 1];
    forall j | 0 <= j ensures !OccursAt(last, w, j) {
      MissingCharNoOccurrence(last, w, k, j);
    }
    SplitOfIsSplit(parts, Join(parts, w), w);
  }
}
