/** The two Go `strings` functions the reaction parser relies on:
    `strings.Fields` (split around runs of white space) and `strings.Split`
    with a non-empty separator, together with `Join`, their inverse. */
module Text {
  import opened Wrappers

  /** Go's unicode.IsSpace: the Latin-1 blanks plus the Unicode White_Space characters. */
  predicate IsSpace(c: char) {
    || c == '\t' || c == '\n' || c == '\U{000B}' || c == '\U{000C}' || c == '\r' || c == ' '
    || c == '\U{0085}' || c == '\U{00A0}' || c == '\U{1680}'
    || ('\U{2000}' <= c <= '\U{200A}')
    || c == '\U{2028}' || c == '\U{2029}' || c == '\U{202F}' || c == '\U{205F}' || c == '\U{3000}'
  }

  predicate NoSpace(s: string) {
    forall i :: 0 <= i < |s| ==> !IsSpace(s[i])
  }

  /** Length of the longest blank-free prefix of s. */
  function WordLength(s: string): (n: nat)
    ensures n <= |s|
    ensures NoSpace(s[..n])
    ensures n < |s| ==> IsSpace(s[n])
    decreases |s|
  {
    if s == [] || IsSpace(s[0]) then 0
    else
      var n := 1 + WordLength(s[1..]);
      assert s[..n] == [s[0]] + s[1..][..n - 1];
      n
  }

  /** strings.Fields: the maximal blank-free pieces of s, in order. */
  function Fields(s: string): (fields: seq<string>)
    ensures forall i :: 0 <= i < |fields| ==> fields[i] != [] && NoSpace(fields[i])
    decreases |s|
  {
    if s == [] then []
    else if IsSpace(s[0]) then Fields(s[1..])
    else
      var n := WordLength(s);
      [s[..n]] + Fields(s[n..])
  }

  /** strings.Join: the parts with sep between consecutive ones. */
  function Join(parts: seq<string>, sep: string): string
    decreases |parts|
  {
    if parts == [] then []
    else if |parts| == 1 then parts[0]
    else parts[0] + sep + Join(parts[1..], sep)
  }

  lemma WordLengthOfWord(w: string, rest: string)
    requires NoSpace(w)
    requires rest == [] || IsSpace(rest[0])
    ensures WordLength(w + rest) == |w|
    decreases |w|
  {
    if w != [] {
      assert (w + rest)[1..] == w[1..] + rest;
      WordLengthOfWord(w[1..], rest);
    }
  }

  /** Joining blank-free, non-empty words with single blanks and splitting the
      result with Fields gives back the words. */
  lemma {:induction false} FieldsJoin(words: seq<string>)
    requires forall i :: 0 <= i < |words| ==> words[i] != [] && NoSpace(words[i])
    ensures Fields(Join(words, " ")) == words
    decreases |words|
  {
    if words == [] {
    } else if |words| == 1 {
      var w := words[0];
      WordLengthOfWord(w, []);
      assert w + [] == w;
      assert w[|w|..] == [];
    } else {
      var w := words[0];
      var rest := Join(words[1..], " ");
      var s := w + " " + rest;
      assert s == w + (" " + rest);
      WordLengthOfWord(w, " " + rest);
      assert s[..|w|] == w;
      assert s[|w|..] == " " + rest;
      assert (" " + rest)[1..] == rest;
      FieldsJoin(words[1..]);
    }
  }

  /** A blank in front of a string adds no field. */
  lemma FieldsLeadingBlank(s: string)
    ensures Fields(" " + s) == Fields(s)
  {
    assert (" " + s)[1..] == s;
  }

  lemma {:induction false} WordLengthTrailingBlank(s: string)
    ensures WordLength(s + " ") == WordLength(s)
    decreases |s|
  {
    if s != [] && !IsSpace(s[0]) {
      assert (s + " ")[1..] == s[1..] + " ";
      WordLengthTrailingBlank(s[1..]);
    }
  }

  /** A blank after a string adds no field. */
  lemma {:induction false} FieldsTrailingBlank(s: string)
    ensures Fields(s + " ") == Fields(s)
    decreases |s|
  {
    var t := s + " ";
    if s == [] {
      assert t[1..] == [];
    } else if IsSpace(s[0]) {
      assert t[1..] == s[1..] + " ";
      FieldsTrailingBlank(s[1..]);
    } else {
      WordLengthTrailingBlank(s);
      var n := WordLength(s);
      assert t[..n] == s[..n];
      assert t[n..] == s[n..] + " ";
      FieldsTrailingBlank(s[n..]);
    }
  }

  predicate OccursAt(s: string, sep: string, k: int) {
    0 <= k && k + |sep| <= |s| && s[k..k + |sep|] == sep
  }

  predicate NoOccurrence(s: string, sep: string) {
    forall k :: 0 <= k <= |s| ==> !OccursAt(s, sep, k)
  }

  /** strings.Index from position j: the leftmost occurrence of sep at or after j. */
  function FindFrom(s: string, sep: string, j: nat): (r: Option<nat>)
    requires j <= |s|
    ensures r.Some? ==> j <= r.value && OccursAt(s, sep, r.value)
    ensures r.Some? ==> forall k :: j <= k < r.value ==> !OccursAt(s, sep, k)
    ensures r.None? ==> forall k :: j <= k <= |s| ==> !OccursAt(s, sep, k)
    decreases |s| - j
  {
    if j + |sep| > |s| then None
    else if s[j..j + |sep|] == sep then Some(j)
    else FindFrom(s, sep, j + 1)
  }

  lemma PrefixBeforeFirstOccurrence(s: string, sep: string, k: nat)
    requires k <= |s|
    requires forall m :: 0 <= m < k ==> !OccursAt(s, sep, m)
    requires |sep| > 0
    ensures NoOccurrence(s[..k], sep)
  {
    forall m | 0 <= m <= k
      ensures !OccursAt(s[..k], sep, m)
    {
      if m + |sep| <= k {
        assert !OccursAt(s, sep, m);
        assert s[..k][m..m + |sep|] == s[m..m + |sep|];
      }
    }
  }

  /** strings.Split with a non-empty separator: the pieces between the
      successive leftmost occurrences of sep. */
  function Split(s: string, sep: string): (parts: seq<string>)
    requires |sep| > 0
    ensures |parts| >= 1
    ensures forall i :: 0 <= i < |parts| ==> NoOccurrence(parts[i], sep)
    decreases |s|
  {
    match FindFrom(s, sep, 0)
    case None => [s]
    case Some(k) =>
      PrefixBeforeFirstOccurrence(s, sep, k);
      [s[..k]] + Split(s[k + |sep|..], sep)
  }

  /** Split loses nothing: joining the pieces with the separator gives s back. */
  lemma {:induction false} JoinSplit(s: string, sep: string)
    requires |sep| > 0
    ensures Join(Split(s, sep), sep) == s
    decreases |s|
  {
    match FindFrom(s, sep, 0)
    case None =>
    case Some(k) =>
      var rest := s[k + |sep|..];
      var tail := Split(rest, sep);
      JoinSplit(rest, sep);
      var parts := Split(s, sep);
      assert parts == [s[..k]] + tail;
      assert |parts| > 1 && parts[0] == s[..k] && parts[1..] == tail;
      assert Join(parts, sep) == s[..k] + sep + rest;
      assert s[k..k + |sep|] == sep;
      assert s == s[..k] + s[k..k + |sep|] + rest;
  }

  /** When sep's first character appears in no part, Split undoes Join. */
  lemma {:induction false} SplitJoin(parts: seq<string>, sep: string)
    requires |sep| > 0 && |parts| > 0
    requires forall i, j :: 0 <= i < |parts| && 0 <= j < |parts[i]| ==> parts[i][j] != sep[0]
    ensures Split(Join(parts, sep), sep) == parts
    decreases |parts|
  {
    var p := parts[0];
    if |parts| == 1 {
      forall k | 0 <= k <= |p|
        ensures !OccursAt(p, sep, k)
      {
        if k + |sep| <= |p| {
          assert p[k..k + |sep|][0] == p[k];
        }
      }
      assert FindFrom(p, sep, 0).None?;
    } else {
      var rest := Join(parts[1..], sep);
      var s := p + sep + rest;
      assert OccursAt(s, sep, |p|) by {
        assert s[|p|..|p| + |sep|] == sep;
      }
      forall m | 0 <= m < |p|
        ensures !OccursAt(s, sep, m)
      {
        if m + |sep| <= |s| {
          assert s[m..m + |sep|][0] == p[m];
        }
      }
      var r := FindFrom(s, sep, 0);
      assert r == Some(|p|);
      assert s[..|p|] == p;
      assert s[|p| + |sep|..] == rest;
      SplitJoin(parts[1..], sep);
    }
  }
}
