/** The java.lang.String operations the start-up and console code relies on:
    startsWith, contains, and split with a one-character pattern. */
module JavaText {
  import opened Outcomes

  /** String.startsWith */
  predicate StartsWith(s: string, prefix: string) {
    prefix <= s
  }

  /** Position of the first c in s, or |s| when s holds none. */
  function IndexOf(s: string, c: char): (i: nat)
    ensures i <= |s|
    ensures i < |s| <==> c in s
    ensures i < |s| ==> s[i] == c
    ensures forall j :: 0 <= j < i ==> s[j] != c
  {
    if s == [] || s[0] == c then 0
    else
      var i := 1 + IndexOf(s[1..], c);
      assert forall j :: 1 <= j < i ==> s[j] == s[1..][j - 1];
      i
  }

  /** The text before the first c; all of s when c does not occur. */
  function Before(s: string, c: char): (b: string)
    ensures b <= s && c !in b
    ensures |b| < |s| ==> s[|b|] == c
  {
    s[..IndexOf(s, c)]
  }

  /** The text after the first c. */
  function After(s: string, c: char): (a: string)
    requires c in s
    ensures |a| < |s|
  {
    s[IndexOf(s, c) + 1..]
  }

  /** s is the text before its first c, that c, and the text after it. */
  lemma BeforeAfter(s: string, c: char)
    requires c in s
    ensures s == Before(s, c) + [c] + After(s, c)
  {
    var i := IndexOf(s, c);
    assert s == s[..i] + [s[i]] + s[i + 1..];
  }

  /** Cutting x + [c] + y at its first c gives back x and y when x holds no c. */
  lemma BeforeAfterSeparated(x: string, c: char, y: string)
    requires c !in x
    ensures c in x + [c] + y
    ensures Before(x + [c] + y, c) == x && After(x + [c] + y, c) == y
  {
    var s := x + [c] + y;
    assert s[|x|] == c;
    assert forall j :: 0 <= j < |x| ==> s[j] == x[j];
    assert IndexOf(s, c) == |x|;
  }

  /** A text cut after its first n characters and then at a separator
      inside the rest is glued back by concatenation. */
  lemma Reassemble(s: string, n: nat, b: string, c: char, a: string)
    requires n <= |s| && s[n..] == b + [c] + a
    ensures s == s[..n] + b + [c] + a
  {
    assert s == s[..n] + s[n..];
  }

  /** s holds some character other than c. */
  predicate HasOtherThan(s: string, c: char) {
    exists j :: 0 <= j < |s| && s[j] != c
  }

  /** The pieces of s between occurrences of c, empty pieces included. */
  function Fields(s: string, c: char): (parts: seq<string>)
    ensures |parts| >= 1 && parts[0] == Before(s, c)
    ensures forall k :: 0 <= k < |parts| ==> c !in parts[k]
    decreases |s|
  {
    if c in s then [Before(s, c)] + Fields(After(s, c), c)
    else
      assert Before(s, c) == s;
      [s]
  }

  /** The pieces joined back together with c between neighbours. */
  function Join(parts: seq<string>, c: char): string
    requires |parts| >= 1
  {
    if |parts| == 1 then parts[0] else parts[0] + [c] + Join(parts[1..], c)
  }

  /** Fields loses nothing: joining the pieces gives back the text. */
  lemma {:induction false} JoinFields(s: string, c: char)
    ensures Join(Fields(s, c), c) == s
    decreases |s|
  {
    if c in s {
      var a := After(s, c);
      BeforeAfter(s, c);
      JoinFields(a, c);
      assert ([Before(s, c)] + Fields(a, c))[1..] == Fields(a, c);
    } else {
      assert Before(s, c) == s;
    }
  }

  /** The longest prefix of parts that does not end with an empty string. */
  function DropTrailingEmpty(parts: seq<string>): (r: seq<string>)
    ensures r <= parts
    ensures r == [] || r[|r| - 1] != ""
    ensures forall j :: |r| <= j < |parts| ==> parts[j] == ""
  {
    if parts == [] || parts[|parts| - 1] != "" then parts
    else DropTrailingEmpty(parts[..|parts| - 1])
  }

  /** s.split(c) for a one-character pattern that is not a regular-expression
      metacharacter: the fields between the occurrences of c with the trailing
      empty ones removed, or the one-element array [s] when c does not occur. */
  function Split(s: string, c: char): seq<string> {
    if c in s then DropTrailingEmpty(Fields(s, c)) else [s]
  }

  /** s.split(c)[k], which throws when the array has no element k. */
  function SplitAt(s: string, c: char, k: nat): Result<string, Exception> {
    var parts := Split(s, c);
    if k < |parts| then Ok(parts[k]) else Err(ArrayIndexOutOfBounds)
  }

  /** Dropping trailing empty strings keeps position k exactly when some
      non-empty string stands at k or later. */
  lemma DropTrailingEmptyLength(parts: seq<string>, k: nat)
    requires k <= |parts|
    ensures k < |DropTrailingEmpty(parts)| <==> SomeNonEmpty(parts[k..])
  {
    var r := DropTrailingEmpty(parts);
    if k < |r| {
      assert parts[k..][|r| - 1 - k] == r[|r| - 1];
    }
    if j :| 0 <= j < |parts[k..]| && parts[k..][j] != "" {
      assert parts[k + j] != "";
    }
  }

  /** Some string in parts is non-empty. */
  predicate SomeNonEmpty(parts: seq<string>) {
    exists k :: 0 <= k < |parts| && parts[k] != ""
  }

  /** A character other than c occurs in b + [c] + a exactly when b is
      non-empty (b holds no c) or one occurs in a. */
  lemma OtherAroundSeparator(b: string, c: char, a: string)
    requires c !in b
    ensures HasOtherThan(b + [c] + a, c) <==> b != "" || HasOtherThan(a, c)
  {
    var s := b + [c] + a;
    if b != "" {
      assert s[0] == b[0];
    }
    if j :| 0 <= j < |a| && a[j] != c {
      assert s[|b| + 1 + j] == a[j];
    }
    if j :| 0 <= j < |s| && s[j] != c {
      if |b| < j {
        assert a[j - |b| - 1] == s[j];
      }
    }
  }

  lemma SomeNonEmptyCons(first: string, rest: seq<string>)
    ensures SomeNonEmpty([first] + rest) <==> first != "" || SomeNonEmpty(rest)
  {
    var parts := [first] + rest;
    if first != "" {
      assert parts[0] != "";
    }
    if k :| 0 <= k < |rest| && rest[k] != "" {
      assert parts[k + 1] != "";
    }
    if k :| 0 <= k < |parts| && parts[k] != "" {
      if k > 0 {
        assert rest[k - 1] != "";
      }
    }
  }

  /** Some piece of s is non-empty exactly when s holds a character other than c. */
  lemma {:induction false} FieldsNonEmpty(s: string, c: char)
    ensures SomeNonEmpty(Fields(s, c)) <==> HasOtherThan(s, c)
    decreases |s|
  {
    if c in s {
      var b, a := Before(s, c), After(s, c);
      BeforeAfter(s, c);
      FieldsNonEmpty(a, c);
      OtherAroundSeparator(b, c, a);
      SomeNonEmptyCons(b, Fields(a, c));
    } else {
      if s != [] {
        assert s[0] != c && Fields(s, c)[0] != "";
      }
    }
  }

  /** s.split(c)[0]: the text before the first c, unless s is made of c alone
      (and holds at least one), when the split array is empty. */
  lemma SplitFirst(s: string, c: char)
    ensures SplitAt(s, c, 0) ==
            if c !in s || HasOtherThan(s, c) then Ok(Before(s, c)) else Err(ArrayIndexOutOfBounds)
  {
    if c in s {
      var fs := Fields(s, c);
      FieldsNonEmpty(s, c);
      DropTrailingEmptyLength(fs, 0);
      assert fs[0..] == fs;
      if HasOtherThan(s, c) {
        assert Split(s, c)[0] == fs[0];
      }
    } else {
      assert Before(s, c) == s;
    }
  }

  /** s.split(c)[1]: the text between the first c and the next c (or the end),
      defined only when something other than c follows the first c. */
  lemma SplitSecond(s: string, c: char)
    ensures SplitAt(s, c, 1) ==
            if c in s && HasOtherThan(After(s, c), c) then Ok(Before(After(s, c), c))
            else Err(ArrayIndexOutOfBounds)
  {
    if c in s {
      var a := After(s, c);
      var fs := Fields(s, c);
      assert fs == [Before(s, c)] + Fields(a, c);
      assert fs[1..] == Fields(a, c);
      FieldsNonEmpty(a, c);
      DropTrailingEmptyLength(fs, 1);
      if HasOtherThan(a, c) {
        assert Split(s, c)[1] == fs[1];
      }
    }
  }

  /** t occurs in s starting at position i. */
  ghost predicate OccursAt(s: string, t: string, i: int) {
    0 <= i && i + |t| <= |s| && s[i..i + |t|] == t
  }

  /** Occurrences in s[1..] are the occurrences in s shifted by one. */
  lemma ShiftOccurrences(s: string, t: string)
    requires s != []
    ensures forall i :: OccursAt(s[1..], t, i) ==> OccursAt(s, t, i + 1)
    ensures forall i :: OccursAt(s, t, i) && i >= 1 ==> OccursAt(s[1..], t, i - 1)
  {
    forall i | OccursAt(s[1..], t, i) ensures OccursAt(s, t, i + 1) {
      assert s[1..][i..i + |t|] == s[i + 1..i + 1 + |t|];
    }
    forall i | OccursAt(s, t, i) && i >= 1 ensures OccursAt(s[1..], t, i - 1) {
      assert s[1..][i - 1..i - 1 + |t|] == s[i..i + |t|];
    }
  }

  /** String.contains: a case-sensitive substring test. */
  function Contains(s: string, t: string): (b: bool)
    ensures b <==> exists i :: OccursAt(s, t, i)
    decreases |s|
  {
    if t <= s then
      assert OccursAt(s, t, 0);
      true
    else if s == [] then
      false
    else
      assert !OccursAt(s, t, 0);
      ShiftOccurrences(s, t);
      Contains(s[1..], t)
  }
}
