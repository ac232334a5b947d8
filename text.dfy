/**
  * The Python string built-ins the backend relies on, over `string` (a sequence
  * of code points): `str.isspace`, `str.strip`, `str.lower`, `str.split()`,
  * `str.split(sep)`, `sep.join(parts)`, the `in` substring test, the
  * "cut to n characters and add an ellipsis" expression that recurs in the
  * handlers, and `str(int)`.
  */
module Text {
  import opened Wrappers

  /** Python's `str.isspace()` for one character: the Unicode White_Space
      characters plus the information separators U+001C..U+001F. */
  predicate IsSpace(c: char) {
    ('\U{9}' <= c <= '\U{D}') || ('\U{1C}' <= c <= '\U{20}') || c == '\U{85}' || c == '\U{A0}'
    || c == '\U{1680}' || ('\U{2000}' <= c <= '\U{200A}') || c == '\U{2028}' || c == '\U{2029}'
    || c == '\U{202F}' || c == '\U{205F}' || c == '\U{3000}'
  }

  // ---------------------------------------------------------------- strip

  /** Number of whitespace characters at the start of `s`. */
  function LeadingSpace(s: string): (n: nat)
    ensures n <= |s|
    ensures forall i :: 0 <= i < n ==> IsSpace(s[i])
    ensures n < |s| ==> !IsSpace(s[n])
  {
    if |s| > 0 && IsSpace(s[0]) then 1 + LeadingSpace(s[1..]) else 0
  }

  /** Number of whitespace characters at the end of `s`. */
  function TrailingSpace(s: string): (n: nat)
    ensures n <= |s|
    ensures forall i :: |s| - n <= i < |s| ==> IsSpace(s[i])
    ensures n < |s| ==> !IsSpace(s[|s| - n - 1])
  {
    if |s| > 0 && IsSpace(s[|s| - 1]) then 1 + TrailingSpace(s[..|s| - 1]) else 0
  }

  /** Python's `s.strip()`: `s` without its leading and trailing whitespace. */
  function Strip(s: string): string
  {
    var a := LeadingSpace(s);
    if a == |s| then "" else s[a..|s| - TrailingSpace(s)]
  }

  /** `Strip` keeps the part of `s` that follows its leading whitespace,
      removes only whitespace, and leaves none at either end; it is empty
      exactly when `s` is all whitespace. */
  lemma {:induction false} StripSpec(s: string)
    ensures LeadingSpace(s) + |Strip(s)| <= |s|
    ensures Strip(s) == s[LeadingSpace(s)..LeadingSpace(s) + |Strip(s)|]
    ensures forall i :: LeadingSpace(s) + |Strip(s)| <= i < |s| ==> IsSpace(s[i])
    ensures Strip(s) != [] ==> !IsSpace(Strip(s)[0]) && !IsSpace(Strip(s)[|Strip(s)| - 1])
    ensures Strip(s) == [] <==> forall i :: 0 <= i < |s| ==> IsSpace(s[i])
  {
    var a, t := LeadingSpace(s), TrailingSpace(s);
    if a < |s| {
      assert !IsSpace(s[a]);
      assert a < |s| - t;
      assert Strip(s)[0] == s[a] && Strip(s)[|Strip(s)| - 1] == s[|s| - t - 1];
    }
  }

  /** Stripping twice is stripping once. */
  lemma {:induction false} StripIdempotent(s: string)
    ensures Strip(Strip(s)) == Strip(s)
  {
    var r := Strip(s);
    StripSpec(s);
    if r != [] {
      assert LeadingSpace(r) == 0;
      assert TrailingSpace(r) == 0;
    }
  }

  // ---------------------------------------------------------------- lower

  /** `str.lower()` on one character, for the ASCII letters. */
  function LowerChar(c: char): (d: char)
    ensures 'A' <= c <= 'Z' ==> d as int == c as int + 32
    ensures !('A' <= c <= 'Z') ==> d == c
  {
    if 'A' <= c <= 'Z' then (c as int + 32) as char else c
  }

  /** Python's `s.lower()`, ASCII letters only. */
  function Lower(s: string): (r: string)
    ensures |r| == |s|
    ensures forall i :: 0 <= i < |s| ==> r[i] == LowerChar(s[i])
  {
    seq(|s|, i requires 0 <= i < |s| => LowerChar(s[i]))
  }

  // ---------------------------------------------------------------- substring

  /** `needle` occurs in `hay` starting at index `i`. */
  predicate OccursAt(hay: string, needle: string, i: int) {
    0 <= i && i + |needle| <= |hay| && hay[i..i + |needle|] == needle
  }

  /** Python's `needle in hay`. */
  function Contains(hay: string, needle: string): (b: bool)
    ensures b <==> exists i :: OccursAt(hay, needle, i)
    decreases |hay|
  {
    if |needle| > |hay| then false
    else if hay[..|needle|] == needle then (assert OccursAt(hay, needle, 0); true)
    else
      var b := Contains(hay[1..], needle);
      assert b ==> exists i :: OccursAt(hay, needle, i) by {
        if b {
          var i :| OccursAt(hay[1..], needle, i);
          assert hay[1..][i..i + |needle|] == hay[i + 1..i + 1 + |needle|];
          assert OccursAt(hay, needle, i + 1);
        }
      }
      assert (exists i :: OccursAt(hay, needle, i)) ==> b by {
        if i :| OccursAt(hay, needle, i) {
          assert i != 0;
          assert hay[1..][i - 1..i - 1 + |needle|] == hay[i..i + |needle|];
          assert OccursAt(hay[1..], needle, i - 1);
        }
      }
      b
  }

  /** Index of the first occurrence of `needle` in `hay` at or after `from`. */
  function IndexFrom(hay: string, needle: string, from: nat): (r: Option<nat>)
    ensures r.Some? ==> from <= r.value && OccursAt(hay, needle, r.value)
    ensures r.Some? ==> forall j :: from <= j < r.value ==> !OccursAt(hay, needle, j)
    ensures r.None? ==> forall j :: from <= j ==> !OccursAt(hay, needle, j)
    decreases |hay| - from
  {
    if from + |needle| > |hay| then None
    else if OccursAt(hay, needle, from) then Some(from)
    else IndexFrom(hay, needle, from + 1)
  }

  /** Python's `hay.find(needle)`, as an option. */
  function IndexOf(hay: string, needle: string): (r: Option<nat>)
    ensures r.Some? ==> OccursAt(hay, needle, r.value)
    ensures r.Some? ==> forall j :: 0 <= j < r.value ==> !OccursAt(hay, needle, j)
    ensures r.None? <==> !Contains(hay, needle)
  {
    IndexFrom(hay, needle, 0)
  }

  // ---------------------------------------------------------------- split / join

  /** Python's `s.split(sep)` for a non-empty separator: the pieces between the
      non-overlapping occurrences of `sep`, found from the left. */
  function SplitOn(s: string, sep: string): (ps: seq<string>)
    requires sep != []
    ensures |ps| >= 1
    ensures forall k :: 0 <= k < |ps| ==> !Contains(ps[k], sep)
    decreases |s|
  {
    match IndexOf(s, sep)
    case None => [s]
    case Some(i) =>
      assert !Contains(s[..i], sep) by {
        if j :| OccursAt(s[..i], sep, j) {
          assert OccursAt(s, sep, j);
        }
      }
      [s[..i]] + SplitOn(s[i + |sep|..], sep)
  }

  /** Python's `sep.join(ps)`. */
  function Join(ps: seq<string>, sep: string): string
  {
    if |ps| == 0 then ""
    else if |ps| == 1 then ps[0]
    else ps[0] + sep + Join(ps[1..], sep)
  }

  /** Splitting and joining back with the same separator gives the text back. */
  lemma {:induction false} JoinSplit(s: string, sep: string)
    requires sep != []
    ensures Join(SplitOn(s, sep), sep) == s
    decreases |s|
  {
    match IndexOf(s, sep)
    case None =>
    case Some(i) =>
      SplitOnSome(s, sep, i);
      var rest := s[i + |sep|..];
      JoinSplit(rest, sep);
      JoinCons(s[..i], SplitOn(rest, sep), sep);
      assert s == s[..i] + sep + rest by {
        assert OccursAt(s, sep, i);
      }
  }

  lemma {:induction false} JoinCons(p: string, ps: seq<string>, sep: string)
    requires |ps| >= 1
    ensures Join([p] + ps, sep) == p + sep + Join(ps, sep)
  {
    assert ([p] + ps)[1..] == ps;
  }

  /** Occurrences of two strings that share no character do not overlap. */
  lemma {:induction false} OccurrencesApart(s: string, sep: string, i: int, needle: string, at: int)
    requires sep != [] && needle != []
    requires forall j :: 0 <= j < |sep| ==> sep[j] !in needle
    requires OccursAt(s, sep, i) && OccursAt(s, needle, at)
    ensures at + |needle| <= i || i + |sep| <= at
  {
    var p := if at <= i then i else at;
    assert forall q :: at <= q < at + |needle| ==> s[q] == needle[q - at] && s[q] in needle;
    assert forall q :: i <= q < i + |sep| ==> s[q] == sep[q - i] && s[q] !in needle;
    assert 0 <= p < |s| ==> (at <= p < at + |needle| ==> s[p] in needle) && (i <= p < i + |sep| ==> s[p] !in needle);
  }

  /** A non-empty `needle` that shares no character with `sep` and occurs in
      `s` occurs in one of the pieces `SplitOn(s, sep)` cuts `s` into. */
  lemma {:induction false} OccurrenceInSomePiece(s: string, sep: string, needle: string, at: int)
    requires sep != [] && needle != []
    requires forall j :: 0 <= j < |sep| ==> sep[j] !in needle
    requires OccursAt(s, needle, at)
    ensures exists k :: 0 <= k < |SplitOn(s, sep)| && Contains(SplitOn(s, sep)[k], needle)
    decreases |s|
  {
    var ps := SplitOn(s, sep);
    match IndexOf(s, sep)
    case None =>
      assert ps[0] == s;
    case Some(i) =>
      var rest := s[i + |sep|..];
      var tail := SplitOn(rest, sep);
      SplitOnSome(s, sep, i);
      assert ps == [s[..i]] + tail;
      if at + |needle| <= i {
        assert OccursAt(s[..i], needle, at);
        assert Contains(ps[0], needle);
      } else {
        assert OccursAt(rest, needle, at - i - |sep|) by {
          OccurrencesApart(s, sep, i, needle, at);
        }
        OccurrenceInSomePiece(rest, sep, needle, at - i - |sep|);
        var k :| 0 <= k < |tail| && Contains(tail[k], needle);
        assert ps[k + 1] == tail[k];
      }
  }

  /** A character that is not an ASCII letter. */
  predicate NotLetter(c: char) {
    !('A' <= c <= 'Z') && !('a' <= c <= 'z')
  }

  /** Lower-casing keeps the occurrences of a string without letters. */
  lemma {:induction false} OccursAtLower(s: string, sep: string, i: int)
    requires forall j :: 0 <= j < |sep| ==> NotLetter(sep[j])
    ensures OccursAt(Lower(s), sep, i) <==> OccursAt(s, sep, i)
  {
    if 0 <= i && i + |sep| <= |s| {
      if OccursAt(Lower(s), sep, i) {
        forall j | 0 <= j < |sep|
          ensures s[i + j] == sep[j]
        {
          assert Lower(s)[i..i + |sep|][j] == sep[j];
        }
      }
      if OccursAt(s, sep, i) {
        forall j | 0 <= j < |sep|
          ensures Lower(s)[i + j] == sep[j]
        {
          assert s[i..i + |sep|][j] == sep[j];
        }
      }
    }
  }

  /** Lower-casing does not move the first occurrence of a string without letters. */
  lemma {:induction false} IndexOfLower(s: string, sep: string)
    requires forall j :: 0 <= j < |sep| ==> NotLetter(sep[j])
    ensures IndexOf(Lower(s), sep) == IndexOf(s, sep)
  {
    var a, b := IndexOf(Lower(s), sep), IndexOf(s, sep);
    forall i ensures OccursAt(Lower(s), sep, i) <==> OccursAt(s, sep, i) {
      OccursAtLower(s, sep, i);
    }
    if a.Some? && b.Some? {
      assert !(a.value < b.value) && !(b.value < a.value);
    }
  }

  /** Splitting on a separator without letters commutes with lower-casing:
      the pieces of `s.lower()` are the lower-cased pieces of `s`. */
  lemma {:induction false} SplitOnLower(s: string, sep: string)
    requires sep != []
    requires forall j :: 0 <= j < |sep| ==> NotLetter(sep[j])
    ensures |SplitOn(Lower(s), sep)| == |SplitOn(s, sep)|
    ensures forall k :: 0 <= k < |SplitOn(s, sep)| ==> SplitOn(Lower(s), sep)[k] == Lower(SplitOn(s, sep)[k])
    decreases |s|
  {
    match IndexOf(s, sep)
    case None =>
      IndexOfLower(s, sep);
    case Some(i) =>
      var rest := s[i + |sep|..];
      var tail, ltail := SplitOn(rest, sep), SplitOn(Lower(rest), sep);
      assert SplitOn(s, sep) == [s[..i]] + tail
          && SplitOn(Lower(s), sep) == [Lower(s)[..i]] + ltail by {
        IndexOfLower(s, sep);
        SplitOnSome(s, sep, i);
        SplitOnSome(Lower(s), sep, i);
        assert Lower(s)[i + |sep|..] == Lower(rest);
      }
      assert |ltail| == |tail| && forall k :: 0 <= k < |tail| ==> ltail[k] == Lower(tail[k]) by {
        SplitOnLower(rest, sep);
      }
      assert Lower(s)[..i] == Lower(s[..i]);
      LowerPieces(s[..i], Lower(s)[..i], tail, ltail);
  }

  /** Prepending a piece and its lower-cased form keeps two piece lists related
      piece by piece. */
  lemma {:induction false} LowerPieces(head: string, lhead: string, tail: seq<string>, ltail: seq<string>)
    requires lhead == Lower(head)
    requires |ltail| == |tail| && forall k :: 0 <= k < |tail| ==> ltail[k] == Lower(tail[k])
    ensures |[lhead] + ltail| == |[head] + tail|
    ensures forall k :: 0 <= k < |[head] + tail| ==> ([lhead] + ltail)[k] == Lower(([head] + tail)[k])
  {
  }

  /** The first step of `SplitOn` when `sep` occurs, first at `i`. */
  lemma {:induction false} SplitOnSome(s: string, sep: string, i: nat)
    requires sep != [] && IndexOf(s, sep) == Some(i)
    ensures i + |sep| <= |s|
    ensures SplitOn(s, sep) == [s[..i]] + SplitOn(s[i + |sep|..], sep)
  {
    assert i + |sep| <= |s| by {
      assert OccursAt(s, sep, i);
    }
  }

  // ---------------------------------------------------------------- words

  /** Number of non-whitespace characters at the start of `s`. */
  function WordLength(s: string): (n: nat)
    ensures n <= |s|
    ensures forall i :: 0 <= i < n ==> !IsSpace(s[i])
    ensures n < |s| ==> IsSpace(s[n])
  {
    if |s| > 0 && !IsSpace(s[0]) then 1 + WordLength(s[1..]) else 0
  }

  /** Python's `s.split()`: the maximal runs of non-whitespace characters. */
  function Words(s: string): (ws: seq<string>)
    ensures forall k :: 0 <= k < |ws| ==> ws[k] != []
    ensures forall k, i :: 0 <= k < |ws| && 0 <= i < |ws[k]| ==> !IsSpace(ws[k][i])
    decreases |s|
  {
    var a := LeadingSpace(s);
    if a == |s| then []
    else
      var rest := s[a..];
      var n := WordLength(rest);
      [rest[..n]] + Words(rest[n..])
  }

  predicate AllSpace(s: string) {
    forall i :: 0 <= i < |s| ==> IsSpace(s[i])
  }

  /** A word of `split()`: non-empty and free of whitespace. */
  predicate IsWord(w: string) {
    w != [] && forall i :: 0 <= i < |w| ==> !IsSpace(w[i])
  }

  /** `gaps[0] + words[0] + gaps[1] + ... + words[n - 1] + gaps[n]`. */
  function Interleave(gaps: seq<string>, words: seq<string>): string
    requires |gaps| == |words| + 1
    decreases |words|
  {
    if words == [] then gaps[0] else gaps[0] + words[0] + Interleave(gaps[1..], words[1..])
  }

  /** `s` reads as whitespace gaps alternating with words, the gaps between two
      words being non-empty: the words are then the maximal non-whitespace runs
      of `s`, in order. */
  predicate CutIntoWords(s: string, gaps: seq<string>, words: seq<string>) {
    && |gaps| == |words| + 1
    && (forall k :: 0 <= k < |gaps| ==> AllSpace(gaps[k]))
    && (forall k :: 0 < k < |words| ==> gaps[k] != [])
    && (forall k :: 0 <= k < |words| ==> IsWord(words[k]))
    && Interleave(gaps, words) == s
  }

  /** Every text is cut into `Words(s)` by some whitespace gaps. */
  lemma {:induction false} WordsCut(s: string)
    ensures exists gaps :: CutIntoWords(s, gaps, Words(s))
    decreases |s|
  {
    var a := LeadingSpace(s);
    if a == |s| {
      assert Words(s) == [];
      assert CutIntoWords(s, [s], []);
    } else {
      var rest := s[a..];
      var n := WordLength(rest);
      var tail := rest[n..];
      WordsCut(tail);
      var g :| CutIntoWords(tail, g, Words(tail));
      var gaps := WordsCutStep(s, a, rest, n, tail, g);
      assert CutIntoWords(s, gaps, Words(s));
    }
  }

  /** One step of `WordsCut`: the leading gap and first word put in front of
      the cut of the rest. */
  lemma {:induction false} WordsCutStep(s: string, a: nat, rest: string, n: nat, tail: string,
                                        g: seq<string>) returns (gaps: seq<string>)
    requires a == LeadingSpace(s) < |s| && rest == s[a..] && n == WordLength(rest) && tail == rest[n..]
    requires CutIntoWords(tail, g, Words(tail))
    ensures CutIntoWords(s, gaps, Words(s))
  {
    var ws := Words(tail);
    var w := rest[..n];
    assert Words(s) == [w] + ws;
    assert AllSpace(s[..a]);
    assert IsWord(w);
    if ws != [] {
      FirstGapNonEmpty(tail, g, ws);
    }
    ThreeSlices(s, a, n);
    CutCons(s[..a], w, tail, g, ws);
    gaps := [s[..a]] + g;
  }

  /** A whitespace gap and a word put in front of a cut text whose first gap
      is non-empty (when it has a word) give a cut text. */
  lemma {:induction false} CutCons(g0: string, w: string, t: string, g: seq<string>, ws: seq<string>)
    requires AllSpace(g0) && IsWord(w) && CutIntoWords(t, g, ws)
    requires ws != [] ==> g[0] != []
    ensures CutIntoWords(g0 + w + t, [g0] + g, [w] + ws)
  {
    var gaps, words := [g0] + g, [w] + ws;
    assert forall k :: 0 < k < |gaps| ==> gaps[k] == g[k - 1];
    assert forall k :: 0 < k < |words| ==> words[k] == ws[k - 1];
    InterleaveCons(g0, w, g, ws);
  }

  lemma {:induction false} ThreeSlices(s: string, a: nat, n: nat)
    requires a <= |s| && n <= |s| - a
    ensures s == s[..a] + s[a..][..n] + s[a..][n..]
  {
    assert s[a..] == s[a..][..n] + s[a..][n..];
  }

  lemma {:induction false} InterleaveCons(g0: string, w: string, g: seq<string>, ws: seq<string>)
    requires |g| == |ws| + 1
    ensures Interleave([g0] + g, [w] + ws) == g0 + w + Interleave(g, ws)
  {
    assert ([g0] + g)[1..] == g;
    assert ([w] + ws)[1..] == ws;
  }

  /** A text that starts with whitespace, cut into at least one word, has a
      non-empty first gap. */
  lemma {:induction false} FirstGapNonEmpty(t: string, g: seq<string>, ws: seq<string>)
    requires CutIntoWords(t, g, ws) && ws != []
    requires t == [] || IsSpace(t[0])
    ensures g[0] != []
  {
    assert Interleave(g, ws) == g[0] + ws[0] + Interleave(g[1..], ws[1..]);
  }

  /** `split()` is the only way to cut a text into words: any gaps and words
      that cut `s` as `CutIntoWords` describes are `Words(s)`. */
  lemma {:induction false} WordsUnique(s: string, gaps: seq<string>, words: seq<string>)
    requires CutIntoWords(s, gaps, words)
    ensures words == Words(s)
    decreases |words|
  {
    if words == [] {
      assert LeadingSpace(s) == |s|;
    } else {
      var w := words[0];
      var rest := CutUncons(s, gaps, words);
      LeadingGap(gaps[0], w + rest);
      assert s[|gaps[0]|..] == w + rest;
      FirstWord(w, rest);
      WordsUnique(rest, gaps[1..], words[1..]);
      assert words == [w] + words[1..];
    }
  }

  /** Whitespace in front of a text that starts with a non-whitespace
      character is exactly its leading whitespace. */
  lemma {:induction false} LeadingGap(g: string, t: string)
    requires AllSpace(g) && t != [] && !IsSpace(t[0])
    ensures LeadingSpace(g + t) == |g|
  {
    assert (g + t)[|g|] == t[0];
    assert forall k :: 0 <= k < |g| ==> (g + t)[k] == g[k];
  }

  /** A word followed by nothing or by whitespace is exactly the first word. */
  lemma {:induction false} FirstWord(w: string, rest: string)
    requires IsWord(w) && (rest == [] || IsSpace(rest[0]))
    ensures WordLength(w + rest) == |w|
    ensures (w + rest)[..|w|] == w && (w + rest)[|w|..] == rest
  {
    assert forall k :: 0 <= k < |w| ==> (w + rest)[k] == w[k];
    assert rest != [] ==> (w + rest)[|w|] == rest[0];
  }

  /** The first gap and word taken off a cut text leave a cut text that is
      empty or starts with whitespace. */
  lemma {:induction false} CutUncons(s: string, gaps: seq<string>, words: seq<string>) returns (rest: string)
    requires CutIntoWords(s, gaps, words) && words != []
    ensures s == gaps[0] + (words[0] + rest)
    ensures rest == [] || IsSpace(rest[0])
    ensures CutIntoWords(rest, gaps[1..], words[1..])
    ensures AllSpace(gaps[0]) && IsWord(words[0])
  {
    rest := Interleave(gaps[1..], words[1..]);
    if |words| > 1 {
      assert rest == gaps[1] + words[1] + Interleave(gaps[2..], words[2..]);
      assert rest[0] == gaps[1][0];
    }
    assert forall k :: 0 <= k < |gaps| - 1 ==> gaps[1..][k] == gaps[k + 1];
    assert forall k :: 0 <= k < |words| - 1 ==> words[1..][k] == words[k + 1];
  }

  // ---------------------------------------------------------------- slicing

  lemma {:induction false} ConcatAssoc<T>(a: seq<T>, b: seq<T>, c: seq<T>)
    ensures (a + b) + c == a + (b + c)
  {
  }

  function Min(a: int, b: int): int { if a <= b then a else b }

  function Max(a: int, b: int): int { if a >= b then a else b }

  /** Python's `s[a:b]` for non-negative bounds: both bounds are clamped to the
      length, and a slice whose end precedes its start is empty. */
  function PySlice(s: string, a: nat, b: nat): (r: string)
    ensures a <= b <= |s| ==> r == s[a..b]
    ensures a <= |s| <= b ==> r == s[a..]
    ensures |s| <= a || b <= a ==> r == []
  {
    var lo := Min(a, |s|);
    s[lo..Max(lo, Min(b, |s|))]
  }

  // ---------------------------------------------------------------- truncation

  /** `s[:n] + "..." if len(s) > n else s`: at most `n` characters of `s`,
      with an ellipsis marking that something was cut. */
  function Truncate(s: string, n: nat): (r: string)
    ensures |r| <= n + 3
    ensures |s| <= n ==> r == s
    ensures |s| > n ==> |r| == n + 3 && r[..n] == s[..n] && r[n..] == "..."
  {
    if |s| > n then s[..n] + "..." else s
  }

  // ---------------------------------------------------------------- str(int)

  predicate IsDigits(r: string) {
    forall i :: 0 <= i < |r| ==> '0' <= r[i] <= '9'
  }

  /** The number a string of decimal digits denotes, most significant first. */
  function DigitsValue(r: string): nat
    requires IsDigits(r)
    decreases |r|
  {
    if r == [] then 0 else 10 * DigitsValue(r[..|r| - 1]) + (r[|r| - 1] - '0') as nat
  }

  /** Decimal digits of a natural number: they denote `n`, with no leading
      zero except in "0" itself. */
  function NatToString(n: nat): (r: string)
    ensures |r| >= 1 && IsDigits(r)
    ensures DigitsValue(r) == n
    ensures r[0] == '0' ==> r == "0"
    decreases n
  {
    var d := ['0' + (n % 10) as char];
    if n < 10 then d
    else
      var p := NatToString(n / 10);
      assert (p + d)[..|p|] == p;
      p + d
  }

  /** Python's `str(n)` (as an f-string field) for an integer: a minus sign
      exactly for a negative `n`, then the digits of its magnitude. */
  function IntToString(n: int): (r: string)
    ensures |r| >= 1
    ensures n >= 0 ==> IsDigits(r) && DigitsValue(r) == n && (r[0] == '0' ==> r == "0")
    ensures n < 0 ==> |r| >= 2 && r[0] == '-' && IsDigits(r[1..]) && DigitsValue(r[1..]) == -n && r[1] != '0'
  {
    if n < 0 then
      var m := NatToString(-n);
      assert ("-" + m)[1..] == m;
      "-" + m
    else NatToString(n)
  }
}
