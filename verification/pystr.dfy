/** The parts of Python's `str` that the worker relies on: `strip()` and
    `strip(chars)`, the `in` substring test, `split(sep)` with an explicit
    separator and indexing its last piece. Python strings are sequences of
    code points; here they are `string`, a sequence of Unicode scalar values. */
module PyStr {
  import opened Exceptions

  /** `str.isspace()` for one character: CPython's whitespace table, the
      characters of bidirectional class WS, B or S or of category Zs. */
  predicate IsSpace(c: char) {
    || ('\t' <= c <= '\r')
    || ('\U{1C}' <= c <= '\U{1F}')
    || c == ' '
    || c == '\U{85}' || c == '\U{A0}' || c == '\U{1680}'
    || ('\U{2000}' <= c <= '\U{200A}')
    || c == '\U{2028}' || c == '\U{2029}' || c == '\U{202F}'
    || c == '\U{205F}' || c == '\U{3000}'
  }

  /** The sets of characters a strip removes. */
  datatype CharClass =
    | Whitespace     // `s.strip()`
    | IntWhitespace  // what `int()` skips around its literal
    | AnyOf(chars: string) // `s.strip(chars)`

  predicate InClass(c: char, cls: CharClass) {
    match cls
    case Whitespace => IsSpace(c)
    // int() converts non-ASCII whitespace to ' ' and then skips only the
    // ASCII characters \t \n \v \f \r and space
    case IntWhitespace => ('\t' <= c <= '\r') || c == ' ' || (c >= '\U{80}' && IsSpace(c))
    case AnyOf(chars) => c in chars
  }

  // ---------------------------------------------------------------- strip

  /** `s` with its leading characters of class `cls` removed. */
  function TrimLeft(s: string, cls: CharClass): string
    decreases |s|
  {
    if |s| > 0 && InClass(s[0], cls) then TrimLeft(s[1..], cls) else s
  }

  /** `s` with its trailing characters of class `cls` removed. */
  function TrimRight(s: string, cls: CharClass): string
    decreases |s|
  {
    if |s| > 0 && InClass(s[|s| - 1], cls) then TrimRight(s[..|s| - 1], cls) else s
  }

  /** Trimming the left end removes a prefix of characters of the class and
      stops at one outside it. */
  lemma {:induction false} TrimLeftRemovesPrefix(s: string, cls: CharClass)
    ensures var r := TrimLeft(s, cls);
            && |r| <= |s| && r == s[|s| - |r|..]
            && (forall k :: 0 <= k < |s| - |r| ==> InClass(s[k], cls))
            && (|r| > 0 ==> !InClass(r[0], cls))
    decreases |s|
  {
    if |s| > 0 && InClass(s[0], cls) {
      TrimLeftRemovesPrefix(s[1..], cls);
    }
  }

  /** Trimming the right end removes a suffix of characters of the class and
      stops at one outside it. */
  lemma {:induction false} TrimRightRemovesSuffix(s: string, cls: CharClass)
    ensures var r := TrimRight(s, cls);
            && |r| <= |s| && r == s[..|r|]
            && (forall k :: |r| <= k < |s| ==> InClass(s[k], cls))
            && (|r| > 0 ==> !InClass(r[|r| - 1], cls))
    decreases |s|
  {
    if |s| > 0 && InClass(s[|s| - 1], cls) {
      TrimRightRemovesSuffix(s[..|s| - 1], cls);
    }
  }

  /** Python's `strip`: both ends trimmed. */
  function StripBy(s: string, cls: CharClass): string {
    TrimRight(TrimLeft(s, cls), cls)
  }

  /** What `strip` returns is a factor of `s` whose removed prefix and suffix
      lie in `cls` and whose own ends do not. */
  lemma StripByFactor(s: string, cls: CharClass)
    ensures var r := StripBy(s, cls);
            && (|r| > 0 ==> !InClass(r[0], cls) && !InClass(r[|r| - 1], cls))
            && exists i, j :: 0 <= i <= j <= |s| && r == s[i..j]
                              && (forall k :: 0 <= k < i ==> InClass(s[k], cls))
                              && (forall k :: j <= k < |s| ==> InClass(s[k], cls))
  {
    var left := TrimLeft(s, cls);
    var r := TrimRight(left, cls);
    TrimLeftRemovesPrefix(s, cls);
    TrimRightRemovesSuffix(left, cls);
    var i := |s| - |left|;
    assert r == s[i..i + |r|];
  }

  /** `s.strip()` */
  function Strip(s: string): string {
    StripBy(s, Whitespace)
  }

  /** `s.strip(chars)` */
  function StripChars(s: string, chars: string): string {
    StripBy(s, AnyOf(chars))
  }

  lemma {:induction false} TrimLeftSkips(w: string, rest: string, cls: CharClass)
    requires forall k :: 0 <= k < |w| ==> InClass(w[k], cls)
    requires |rest| > 0 ==> !InClass(rest[0], cls)
    ensures TrimLeft(w + rest, cls) == rest
    decreases |w|
  {
    if |w| > 0 {
      assert (w + rest)[1..] == w[1..] + rest;
      TrimLeftSkips(w[1..], rest, cls);
    } else {
      assert w + rest == rest;
    }
  }

  lemma {:induction false} TrimRightSkips(rest: string, w: string, cls: CharClass)
    requires forall k :: 0 <= k < |w| ==> InClass(w[k], cls)
    requires |rest| > 0 ==> !InClass(rest[|rest| - 1], cls)
    ensures TrimRight(rest + w, cls) == rest
    decreases |w|
  {
    if |w| > 0 {
      assert (rest + w)[..|rest + w| - 1] == rest + w[..|w| - 1];
      TrimRightSkips(rest, w[..|w| - 1], cls);
    } else {
      assert rest + w == rest;
    }
  }

  /** Strip is determined by its characterisation: whatever lies between a
      prefix and a suffix of stripped characters, and does not itself start or
      end with one, is what `strip` returns. */
  lemma StripExact(w1: string, m: string, w2: string, cls: CharClass)
    requires forall k :: 0 <= k < |w1| ==> InClass(w1[k], cls)
    requires forall k :: 0 <= k < |w2| ==> InClass(w2[k], cls)
    requires |m| > 0 ==> !InClass(m[0], cls) && !InClass(m[|m| - 1], cls)
    ensures StripBy(w1 + m + w2, cls) == m
  {
    if |m| == 0 {
      assert w1 + m + w2 == (w1 + w2) + "";
      TrimLeftSkips(w1 + w2, "", cls);
    } else {
      assert w1 + m + w2 == w1 + (m + w2);
      TrimLeftSkips(w1, m + w2, cls);
      TrimRightSkips(m, w2, cls);
    }
  }

  // ---------------------------------------------------------------- search

  /** `p` occurs in `s` starting at index `i`. */
  predicate OccursAt(s: string, p: string, i: int) {
    0 <= i && i + |p| <= |s| && s[i..i + |p|] == p
  }

  /** Python's `p in s`, scanning left to right. */
  predicate Contains(s: string, p: string)
    decreases |s|
  {
    (|p| <= |s| && s[..|p|] == p) || (|s| > 0 && Contains(s[1..], p))
  }

  lemma OccursAtTail(s: string, p: string)
    requires |s| > 0
    ensures forall j :: 0 <= j ==> (OccursAt(s[1..], p, j) <==> OccursAt(s, p, j + 1))
    ensures forall j :: 1 <= j ==> (OccursAt(s, p, j) <==> OccursAt(s[1..], p, j - 1))
  {
    forall j | 0 <= j ensures OccursAt(s[1..], p, j) <==> OccursAt(s, p, j + 1) {
      if j + |p| <= |s| - 1 {
        assert s[1..][j..j + |p|] == s[j + 1..j + 1 + |p|];
      }
    }
  }

  /** `p in s` holds exactly when `p` occurs in `s` at some index. */
  lemma {:induction false} ContainsIffOccurs(s: string, p: string)
    ensures Contains(s, p) <==> exists i :: OccursAt(s, p, i)
    decreases |s|
  {
    if |s| > 0 {
      ContainsIffOccurs(s[1..], p);
      OccursAtTail(s, p);
      if exists i :: OccursAt(s, p, i) {
        var i :| OccursAt(s, p, i);
        if i > 0 {
          assert OccursAt(s[1..], p, i - 1);
        }
      }
      if |p| <= |s| && s[..|p|] == p {
        assert OccursAt(s, p, 0);
      }
    } else if |p| == 0 {
      assert OccursAt(s, p, 0);
    }
  }

  /** A string does not contain a pattern one of whose characters it lacks. */
  lemma {:induction false} MissingCharNotContained(s: string, p: string, k: nat)
    requires k < |p| && p[k] !in s
    ensures !Contains(s, p)
    decreases |s|
  {
    if |p| <= |s| {
      assert s[..|p|][k] == s[k];
    }
    if |s| > 0 {
      MissingCharNotContained(s[1..], p, k);
    }
  }

  /** A string contains any factor of itself. */
  lemma ContainsFactor(a: string, p: string, b: string)
    ensures Contains(a + p + b, p)
  {
    assert OccursAt(a + p + b, p, |a|) by {
      assert (a + p + b)[|a|..|a| + |p|] == p;
    }
    ContainsIffOccurs(a + p + b, p);
  }

  /** `s.find(p)` for a non-empty `p`: the index of its leftmost occurrence. */
  function Find(s: string, p: string): (r: Option<nat>)
    requires |p| > 0
    ensures r.Some? ==> OccursAt(s, p, r.value)
    ensures r.Some? ==> forall j :: 0 <= j < r.value ==> !OccursAt(s, p, j)
    ensures r.None? ==> forall j :: !OccursAt(s, p, j)
    decreases |s|
  {
    if |s| < |p| then None
    else if s[..|p|] == p then Some(0)
    else
      OccursAtTail(s, p);
      match Find(s[1..], p)
      case None => None
      case Some(i) => Some(i + 1)
  }

  /** A string without `p` has no index where `p` is found. */
  lemma FindAbsent(s: string, p: string)
    requires |p| > 0 && !Contains(s, p)
    ensures Find(s, p) == None
  {
    ContainsIffOccurs(s, p);
  }

  // ---------------------------------------------------------------- split

  /** `s.split(sep)`: the pieces between the leftmost non-overlapping
      occurrences of `sep`, from left to right. */
  function Split(s: string, sep: string): (r: seq<string>)
    requires |sep| > 0
    ensures |r| >= 1
    decreases |s|
  {
    match Find(s, sep)
    case None => [s]
    case Some(i) => [s[..i]] + Split(s[i + |sep|..], sep)
  }

  /** `sep.join(parts)` */
  function Join(parts: seq<string>, sep: string): string {
    if |parts| == 0 then ""
    else if |parts| == 1 then parts[0]
    else parts[0] + sep + Join(parts[1..], sep)
  }

  /** `xs[-1]` on a non-empty list. */
  function Last<T>(xs: seq<T>): T
    requires |xs| > 0
  {
    xs[|xs| - 1]
  }

  /** Joining the pieces of a split with the separator gives back the string. */
  lemma {:induction false} JoinSplit(s: string, sep: string)
    requires |sep| > 0
    ensures Join(Split(s, sep), sep) == s
    decreases |s|
  {
    var f := Find(s, sep);
    if f.Some? {
      var i := f.value;
      var rest := s[i + |sep|..];
      var tail := Split(rest, sep);
      JoinSplit(rest, sep);
      assert Split(s, sep) == [s[..i]] + tail;
      assert ([s[..i]] + tail)[1..] == tail;
      assert Join(Split(s, sep), sep) == s[..i] + sep + Join(tail, sep);
      assert s[i..i + |sep|] == sep;
      assert s == s[..i] + s[i..i + |sep|] + rest;
    }
  }

  /** No piece of a split contains the separator. */
  lemma {:induction false} SplitPiecesFree(s: string, sep: string)
    requires |sep| > 0
    ensures forall k :: 0 <= k < |Split(s, sep)| ==> !Contains(Split(s, sep)[k], sep)
    decreases |s|
  {
    var f := Find(s, sep);
    if f.None? {
      ContainsIffOccurs(s, sep);
    } else {
      var i := f.value;
      var rest := s[i + |sep|..];
      SplitPiecesFree(rest, sep);
      var head := s[..i];
      forall j | 0 <= j ensures !OccursAt(head, sep, j) {
        if j + |sep| <= i {
          assert !OccursAt(s, sep, j);
          assert head[j..j + |sep|] == s[j..j + |sep|];
        }
      }
      ContainsIffOccurs(head, sep);
      assert Split(s, sep) == [head] + Split(rest, sep);
    }
  }

  /** Pieces free of a character split back into themselves after joining
      on that character. */
  lemma {:induction false} SplitJoin(parts: seq<string>, c: char)
    requires |parts| > 0
    requires forall k :: 0 <= k < |parts| ==> c !in parts[k]
    ensures Split(Join(parts, [c]), [c]) == parts
    decreases |parts|
  {
    var s := Join(parts, [c]);
    if |parts| == 1 {
      MissingCharNotContained(s, [c], 0);
      FindAbsent(s, [c]);
    } else {
      var rest := Join(parts[1..], [c]);
      assert s == parts[0] + [c] + rest;
      var n := |parts[0]|;
      assert OccursAt(s, [c], n) by {
        assert s[n..n + 1] == [c];
      }
      forall j | 0 <= j < n ensures !OccursAt(s, [c], j) {
        assert s[j..j + 1][0] == parts[0][j];
      }
      assert Find(s, [c]) == Some(n);
      assert s[..n] == parts[0];
      assert s[n + 1..] == rest;
      SplitJoin(parts[1..], c);
      assert parts == [parts[0]] + parts[1..];
    }
  }

  /** No proper suffix of `sep` is also a prefix of it, so two occurrences of
      `sep` never overlap. */
  predicate SelfOverlapFree(sep: string) {
    forall d :: 0 < d < |sep| ==> sep[d..] != sep[..|sep| - d]
  }

  lemma OccurrencesApart(s: string, sep: string, i: int, j: int)
    requires SelfOverlapFree(sep)
    requires OccursAt(s, sep, i) && OccursAt(s, sep, j) && i < j
    ensures i + |sep| <= j
  {
    if j < i + |sep| {
      var d := j - i;
      forall t | 0 <= t < |sep| - d ensures sep[d..][t] == sep[..|sep| - d][t] {
        assert s[i..i + |sep|][d + t] == s[j..j + |sep|][t];
      }
    }
  }

  /** One step of `split`: the first piece ends where the separator is first found. */
  lemma SplitStep(s: string, sep: string, i: nat)
    requires |sep| > 0 && Find(s, sep) == Some(i)
    ensures Split(s, sep) == [s[..i]] + Split(s[i + |sep|..], sep)
  {
  }

  /** The last piece of a split is whatever follows the last occurrence of a
      separator that cannot overlap itself. */
  lemma {:induction false} LastPieceAfterLastSep(a: string, sep: string, b: string)
    requires |sep| > 0 && SelfOverlapFree(sep) && !Contains(b, sep)
    ensures Last(Split(a + sep + b, sep)) == b
    decreases |a|
  {
    var s := a + sep + b;
    assert OccursAt(s, sep, |a|) by {
      assert s[|a|..|a| + |sep|] == sep;
    }
    var i := Find(s, sep).value;
    SplitStep(s, sep, i);
    var rest := s[i + |sep|..];
    if i == |a| {
      assert rest == b;
      FindAbsent(b, sep);
      assert Split(rest, sep) == [b];
    } else {
      OccurrencesApart(s, sep, i, |a|);
      var a' := a[i + |sep|..];
      assert rest == a' + sep + b;
      LastPieceAfterLastSep(a', sep, b);
    }
  }
}
