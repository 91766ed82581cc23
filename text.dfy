/** String operations of the Kotlin standard library that the JavaScript target relies on,
    stated over `string` (a sequence of `char`). */
module Text {

  datatype Option<T> = None | Some(value: T)

  predicate StartsWith(s: string, prefix: string) {
    |prefix| <= |s| && s[..|prefix|] == prefix
  }

  predicate EndsWith(s: string, suffix: string) {
    |suffix| <= |s| && s[|s| - |suffix|..] == suffix
  }

  /** `d` occurs in `s` starting at index `i`. */
  predicate OccursAt(s: string, d: string, i: nat) {
    i + |d| <= |s| && s[i..i + |d|] == d
  }

  predicate Contains(s: string, d: string) {
    exists i :: 0 <= i <= |s| && OccursAt(s, d, i)
  }

  /** `s.indexOf(d, from)`: the leftmost occurrence at or after `from`. */
  function IndexOf(s: string, d: string, from: nat): (r: Option<nat>)
    requires |d| > 0
    decreases |s| - from
    ensures r.Some? ==> from <= r.value && OccursAt(s, d, r.value)
    ensures r.Some? ==> forall i: nat :: from <= i < r.value ==> !OccursAt(s, d, i)
    ensures r.None? ==> forall i: nat :: from <= i ==> !OccursAt(s, d, i)
  {
    if from + |d| > |s| then None
    else if s[from..from + |d|] == d then Some(from)
    else IndexOf(s, d, from + 1)
  }

  /** `s.replace(c.toString(), by)`: every occurrence of the one-character string `c`,
      scanned left to right, is replaced by `by`. */
  function ReplaceChar(s: string, c: char, rep: string): (r: string)
    ensures c !in s ==> r == s
  {
    if s == [] then []
    else (if s[0] == c then rep else [s[0]]) + ReplaceChar(s[1..], c, rep)
  }

  lemma {:induction false} ReplaceCharConcat(a: string, b: string, c: char, rep: string)
    ensures ReplaceChar(a + b, c, rep) == ReplaceChar(a, c, rep) + ReplaceChar(b, c, rep)
  {
    if a == [] {
      assert a + b == b;
    } else {
      assert (a + b)[0] == a[0];
      assert (a + b)[1..] == a[1..] + b;
      ReplaceCharConcat(a[1..], b, c, rep);
    }
  }

  /** `"\n".repeat(n)` */
  function Newlines(n: nat): (r: string)
    ensures |r| == n && forall i :: 0 <= i < n ==> r[i] == '\n'
  {
    seq(n, _ => '\n')
  }

  /** The number of line terminators as Kotlin's `lines()` splits text: `"\r\n"`, `"\n"`
      or `"\r"`, with `"\r\n"` counted once. */
  function Terminators(s: string): nat
  {
    if s == [] then 0
    else if s[0] == '\r' && |s| > 1 && s[1] == '\n' then 1 + Terminators(s[2..])
    else if s[0] == '\n' || s[0] == '\r' then 1 + Terminators(s[1..])
    else Terminators(s[1..])
  }

  /** Text has no line terminator exactly when it holds neither `'\n'` nor `'\r'`, and it
      never has more terminators than characters. */
  lemma {:induction false} TerminatorsNone(s: string)
    ensures Terminators(s) <= |s|
    ensures Terminators(s) == 0 <==> '\n' !in s && '\r' !in s
    decreases |s|
  {
    if s == [] {
    } else if s[0] == '\r' && |s| > 1 && s[1] == '\n' {
      TerminatorsNone(s[2..]);
    } else {
      TerminatorsNone(s[1..]);
      assert s == [s[0]] + s[1..];
    }
  }

  /** `s.lines().size` */
  function LineCount(s: string): nat
  {
    Terminators(s) + 1
  }

  /** The length of the first step of the count: `"\r\n"` is taken as one terminator. */
  function StepLength(s: string): nat
    requires s != []
  {
    if s[0] == '\r' && |s| > 1 && s[1] == '\n' then 2 else 1
  }

  /** Whether the first step of the count is a terminator. */
  function StepCount(s: string): nat
    requires s != []
  {
    if s[0] == '\r' || s[0] == '\n' then 1 else 0
  }

  lemma TerminatorsStep(s: string)
    requires s != []
    ensures StepLength(s) <= |s| && Terminators(s) == StepCount(s) + Terminators(s[StepLength(s)..])
  {
  }

  /** Terminators add up over a concatenation, except that a `'\r'` at the end of the first
      part and a `'\n'` at the start of the second merge into one `"\r\n"`. */
  lemma {:induction false} TerminatorsConcat(a: string, b: string)
    ensures Terminators(a + b) ==
            Terminators(a) + Terminators(b) - (if EndsWith(a, "\r") && StartsWith(b, "\n") then 1 else 0)
  {
    if a == [] {
      assert a + b == b;
    } else if |a| == 1 {
      assert a == [a[0]];
      TerminatorsSingle(a[0], b);
    } else {
      var k := StepLength(a);
      assert (a + b)[0] == a[0] && (a + b)[1] == a[1];
      assert StepLength(a + b) == k && StepCount(a + b) == StepCount(a);
      TerminatorsStep(a);
      TerminatorsStep(a + b);
      assert (a + b)[k..] == a[k..] + b;
      TerminatorsConcat(a[k..], b);
      EndsWithAfterStep(a);
    }
  }

  lemma TerminatorsSingle(c: char, b: string)
    ensures Terminators([c] + b) ==
            Terminators([c]) + Terminators(b) - (if EndsWith([c], "\r") && StartsWith(b, "\n") then 1 else 0)
  {
    TerminatorsStep([c] + b);
    assert ([c] + b)[1..] == b;
    assert EndsWith([c], "\r") <==> c == '\r';
    if c == '\r' && |b| > 0 && b[0] == '\n' {
      assert ([c] + b)[2..] == b[1..];
      TerminatorsStep(b);
      assert StartsWith(b, "\n");
    } else {
      assert StepLength([c] + b) == 1;
      assert StartsWith(b, "\n") ==> b[0] == '\n';
    }
  }

  lemma EndsWithAfterStep(a: string)
    requires |a| >= 2
    ensures EndsWith(a, "\r") == EndsWith(a[StepLength(a)..], "\r")
  {
    var k := StepLength(a);
    if |a| > k {
      assert a[k..][|a| - k - 1] == a[|a| - 1];
    } else {
      assert a[|a| - 1] == '\n';
    }
  }

  lemma {:induction false} NewlinesTerminators(n: nat)
    ensures Terminators(Newlines(n)) == n
  {
    if n > 0 {
      assert Newlines(n)[1..] == Newlines(n - 1);
      NewlinesTerminators(n - 1);
    }
  }

  /** `s.split(d)` for a non-empty delimiter and no limit: the pieces between the
      successive leftmost, non-overlapping occurrences of `d`. */
  function Split(s: string, d: string): (pieces: seq<string>)
    requires |d| > 0
    decreases |s|
    ensures |pieces| >= 1
    ensures forall k :: 0 <= k < |pieces| ==> !Contains(pieces[k], d)
  {
    match IndexOf(s, d, 0)
    case None => [s]
    case Some(i) =>
      PrefixHasNoOccurrence(s, d, i);
      [s[..i]] + Split(s[i + |d|..], d)
  }

  lemma PrefixHasNoOccurrence(s: string, d: string, i: nat)
    requires |d| > 0 && i <= |s|
    requires forall j: nat :: j < i ==> !OccursAt(s, d, j)
    ensures !Contains(s[..i], d)
  {
    forall j: nat | OccursAt(s[..i], d, j)
      ensures false
    {
      assert s[..i][j..j + |d|] == s[j..j + |d|];
      assert OccursAt(s, d, j);
    }
  }

  /** `pieces.joinToString(d)` */
  function Join(pieces: seq<string>, d: string): string
  {
    if pieces == [] then []
    else if |pieces| == 1 then pieces[0]
    else pieces[0] + d + Join(pieces[1..], d)
  }

  /** Splitting and joining back with the same delimiter gives the original text. */
  lemma {:induction false} JoinSplit(s: string, d: string)
    requires |d| > 0
    ensures Join(Split(s, d), d) == s
    decreases |s|
  {
    var r := IndexOf(s, d, 0);
    if r.Some? {
      var i := r.value;
      var rest := s[i + |d|..];
      SplitAtFirst(s, d, i);
      JoinSplit(rest, d);
      JoinCons(s[..i], Split(rest, d), d);
    }
  }

  lemma SplitAtFirst(s: string, d: string, i: nat)
    requires |d| > 0 && IndexOf(s, d, 0) == Some(i)
    ensures Split(s, d) == [s[..i]] + Split(s[i + |d|..], d)
    ensures s == s[..i] + d + s[i + |d|..]
  {
    assert s == s[..i] + s[i..i + |d|] + s[i + |d|..];
  }

  lemma JoinCons(p: string, tail: seq<string>, d: string)
    requires |tail| >= 1
    ensures Join([p] + tail, d) == p + d + Join(tail, d)
  {
    assert ([p] + tail)[1..] == tail;
  }

  /** For a one-character delimiter that no piece contains, splitting the joined text
      gives the pieces back. */
  lemma {:induction false} SplitJoin(pieces: seq<string>, c: char)
    requires |pieces| >= 1
    requires forall k :: 0 <= k < |pieces| ==> c !in pieces[k]
    ensures Split(Join(pieces, [c]), [c]) == pieces
  {
    var s := Join(pieces, [c]);
    if |pieces| == 1 {
      NoCharNoIndex(pieces[0], c);
    } else {
      var p := pieces[0];
      var tail := Join(pieces[1..], [c]);
      assert s == p + [c] + tail;
      assert OccursAt(s, [c], |p|) by { assert s[|p|..|p| + 1] == [c]; }
      forall j: nat | j < |p| ensures !OccursAt(s, [c], j) {
        assert s[j] == p[j];
        assert s[j..j + 1] == [s[j]];
      }
      assert IndexOf(s, [c], 0) == Some(|p|);
      assert s[..|p|] == p;
      assert s[|p| + 1..] == tail;
      SplitJoin(pieces[1..], c);
    }
  }

  lemma NoCharNoIndex(s: string, c: char)
    requires c !in s
    ensures IndexOf(s, [c], 0).None?
  {
    forall i: nat | i + 1 <= |s| ensures !OccursAt(s, [c], i) {
      assert s[i..i + 1][0] == s[i];
    }
  }

  /** The first two pieces of a split, with the delimiter between them, begin the text. */
  lemma SplitFirstTwo(s: string, d: string)
    requires |d| > 0 && |Split(s, d)| >= 2
    ensures StartsWith(s, Split(s, d)[0] + d + Split(s, d)[1])
  {
    var pieces := Split(s, d);
    var rest := Join(pieces[1..], d);
    assert s == pieces[0] + d + rest by {
      JoinSplit(s, d);
      assert pieces == [pieces[0]] + pieces[1..];
      JoinCons(pieces[0], pieces[1..], d);
    }
    assert StartsWith(rest, pieces[1]);
    StartsWithAppend(pieces[0] + d, rest, pieces[1]);
  }

  lemma StartsWithAppend(p: string, s: string, q: string)
    requires StartsWith(s, q)
    ensures StartsWith(p + s, p + q)
  {
    assert (p + s)[..|p + q|] == p + s[..|q|];
  }

  lemma EndsWithAppended(a: string, b: string)
    ensures EndsWith(a + b, b)
  {
    assert (a + b)[|a|..] == b;
  }
}
