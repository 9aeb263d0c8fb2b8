/** Shared vocabulary: optional values, HTTP-style replies, and the string
    operations of JavaScript that several parts of the system rely on
    (`split`/`join` on one separator, `trim`, and the byte-order comparison
    that SQLite's `ORDER BY` applies to TEXT columns). */
module Common {

  datatype Option<+T> = None | Some(value: T) {
    /** `x ?? d` for a parameter default: only a missing value takes `d`. */
    function GetOr(d: T): (r: T)
      ensures this.Some? ==> r == value
      ensures this.None? ==> r == d
    {
      if this.Some? then value else d
    }
  }

  /** A handler's answer: a success payload, or an HTTP 400 / 404 / 500 with the
      error text the handler sends. */
  datatype Reply<+T> = Ok(value: T) | BadRequest(message: string) | NotFound(message: string) | InternalError(message: string)

  /** JavaScript truthiness of an optional string: `undefined` and `""` are falsy. */
  predicate Truthy(s: Option<string>) {
    s.Some? && s.value != ""
  }

  /** `s || d` for an optional string. */
  function OrElse(s: Option<string>, d: string): (r: string)
    ensures Truthy(s) ==> r == s.value
    ensures !Truthy(s) ==> r == d
  {
    if Truthy(s) then s.value else d
  }

  /** `s || null`: a falsy value is stored as NULL. */
  function OrNull(s: Option<string>): (r: Option<string>)
    ensures r.Some? <==> Truthy(s)
    ensures r.Some? ==> r == s
  {
    if Truthy(s) then s else None
  }

  /** The whole seconds of an instant given in milliseconds: the resolution
      of SQLite's CURRENT_TIMESTAMP. */
  function Seconds(ms: int): (s: int)
    ensures s * 1000 <= ms < s * 1000 + 1000
  {
    ms / 1000
  }

  // ---------------------------------------------------------------------
  // String.prototype.split(c) and Array.prototype.join(c) for one character

  function Split(s: string, c: char): (parts: seq<string>)
    ensures |parts| >= 1
    ensures forall i :: 0 <= i < |parts| ==> c !in parts[i]
    decreases |s|
  {
    if |s| == 0 then [""]
    else if s[0] == c then [""] + Split(s[1..], c)
    else
      var rest := Split(s[1..], c);
      [[s[0]] + rest[0]] + rest[1..]
  }

  function Join(parts: seq<string>, c: char): string
    decreases |parts|
  {
    if |parts| == 0 then ""
    else if |parts| == 1 then parts[0]
    else parts[0] + [c] + Join(parts[1..], c)
  }

  /** Joining the pieces of a split with the same separator gives back the text. */
  lemma {:induction false} JoinSplit(s: string, c: char)
    ensures Join(Split(s, c), c) == s
    decreases |s|
  {
    if |s| == 0 {
    } else if s[0] == c {
      JoinSplit(s[1..], c);
      var rest := Split(s[1..], c);
      assert Split(s, c) == [""] + rest;
      assert Join([""] + rest, c) == "" + [c] + Join(rest, c);
      assert s == [c] + s[1..];
    } else {
      JoinSplit(s[1..], c);
      var rest := Split(s[1..], c);
      var head := [s[0]] + rest[0];
      assert Split(s, c) == [head] + rest[1..];
      if |rest| == 1 {
        assert Join([head], c) == head;
        assert rest[0] == s[1..];
      } else {
        assert ([head] + rest[1..])[1..] == rest[1..];
        assert Join(rest, c) == rest[0] + [c] + Join(rest[1..], c);
        assert Join([head] + rest[1..], c) == head + [c] + Join(rest[1..], c);
      }
      assert s == [s[0]] + s[1..];
    }
  }

  /** Splitting a join of separator-free pieces gives back the pieces. */
  lemma {:induction false} SplitJoin(parts: seq<string>, c: char)
    requires |parts| >= 1
    requires forall i :: 0 <= i < |parts| ==> c !in parts[i]
    ensures Split(Join(parts, c), c) == parts
    decreases |parts|, |parts[0]|
  {
    if |parts| == 1 {
      SplitNoSeparator(parts[0], c);
    } else if |parts[0]| == 0 {
      var tail := Join(parts[1..], c);
      assert Join(parts, c) == [c] + tail;
      SplitJoin(parts[1..], c);
      assert ([c] + tail)[1..] == tail;
      assert parts == [""] + parts[1..];
    } else {
      var p0 := parts[0];
      var parts' := [p0[1..]] + parts[1..];
      assert p0[0] in p0;
      forall i | 0 <= i < |parts'| ensures c !in parts'[i] {
        if i == 0 {
          assert forall x :: x in p0[1..] ==> x in p0;
        } else {
          assert parts'[i] == parts[i];
        }
      }
      assert parts'[1..] == parts[1..];
      SplitJoin(parts', c);
      var j := Join(parts, c);
      var j' := Join(parts', c);
      assert j == p0 + [c] + Join(parts[1..], c);
      assert j' == p0[1..] + [c] + Join(parts[1..], c);
      assert j[0] == p0[0] && j[1..] == j';
      assert p0 == [p0[0]] + p0[1..];
    }
  }

  lemma {:induction false} SplitNoSeparator(s: string, c: char)
    requires c !in s
    ensures Split(s, c) == [s]
    decreases |s|
  {
    if |s| > 0 {
      assert s[0] in s;
      assert forall x :: x in s[1..] ==> x in s;
      SplitNoSeparator(s[1..], c);
      assert s == [s[0]] + s[1..];
    }
  }

  /** The first piece of a split is the text before the first separator,
      and the remaining pieces joined again are the text after it. */
  lemma SplitFirst(s: string, c: char)
    ensures c in s ==> s == Split(s, c)[0] + [c] + Join(Split(s, c)[1..], c) && |Split(s, c)| >= 2
    ensures c !in s ==> Split(s, c) == [s]
  {
    JoinSplit(s, c);
    var parts := Split(s, c);
    if |parts| == 1 {
      assert s == parts[0];
      SplitNoSeparator(s, c);
    } else {
      assert Join(parts, c) == parts[0] + [c] + Join(parts[1..], c);
      assert c in s by {
        assert s[|parts[0]|] == c;
      }
    }
  }

  /** Splitting at a first separator at index `i` gives the text before it,
      then the pieces of the text after it. */
  lemma {:induction false} SplitAt(s: string, c: char, i: nat)
    requires i < |s| && s[i] == c && c !in s[..i]
    ensures Split(s, c) == [s[..i]] + Split(s[i + 1..], c)
    decreases i
  {
    if i > 0 {
      assert s[0] in s[..i];
      assert forall x :: x in s[1..][..i - 1] ==> x in s[..i];
      SplitAt(s[1..], c, i - 1);
      assert s[1..][i..] == s[i + 1..];
      assert s[..i] == [s[0]] + s[1..][..i - 1];
    }
  }

  /** The text before the first separator, and everything after it. */
  lemma SplitAtFirst(s: string, c: char, i: nat)
    requires i < |s| && s[i] == c && c !in s[..i]
    ensures |Split(s, c)| >= 2
    ensures Split(s, c)[0] == s[..i]
    ensures Join(Split(s, c)[1..], c) == s[i + 1..]
  {
    SplitAt(s, c, i);
    JoinSplit(s[i + 1..], c);
    assert Split(s, c)[1..] == Split(s[i + 1..], c);
  }

  // ---------------------------------------------------------------------
  // String.prototype.trim: JavaScript's white space and line terminators

  predicate IsJsSpace(ch: char) {
    ch == '\t' || ch == '\n' || ch == '\U{000B}' || ch == '\U{000C}' || ch == '\r' || ch == ' ' ||
    ch == '\U{00A0}' || ch == '\U{1680}' || ('\U{2000}' <= ch <= '\U{200A}') ||
    ch == '\U{2028}' || ch == '\U{2029}' || ch == '\U{202F}' || ch == '\U{205F}' ||
    ch == '\U{3000}' || ch == '\U{FEFF}'
  }

  function TrimStart(s: string): (r: string)
    ensures |r| <= |s| && r == s[|s| - |r|..]
    ensures forall i :: 0 <= i < |s| - |r| ==> IsJsSpace(s[i])
    ensures r == [] || !IsJsSpace(r[0])
  {
    if |s| > 0 && IsJsSpace(s[0]) then TrimStart(s[1..]) else s
  }

  function TrimEnd(s: string): (r: string)
    ensures |r| <= |s| && r == s[..|r|]
    ensures forall i :: |r| <= i < |s| ==> IsJsSpace(s[i])
    ensures r == [] || !IsJsSpace(r[|r| - 1])
  {
    if |s| > 0 && IsJsSpace(s[|s| - 1]) then TrimEnd(s[..|s| - 1]) else s
  }

  /** `s` without its leading and trailing white space. */
  function Trim(s: string): (r: string)
    ensures |r| <= |s|
    ensures r == [] || (!IsJsSpace(r[0]) && !IsJsSpace(r[|r| - 1]))
  {
    TrimEnd(TrimStart(s))
  }

  // ---------------------------------------------------------------------
  // Byte-wise text order (SQLite's BINARY collation coincides with code-point
  // order, because UTF-8 preserves it)

  predicate TextLess(a: string, b: string)
    decreases |a|
  {
    if |a| == 0 then |b| > 0
    else if |b| == 0 then false
    else if a[0] != b[0] then a[0] < b[0]
    else TextLess(a[1..], b[1..])
  }

  lemma {:induction false} TextLessIrreflexive(a: string)
    ensures !TextLess(a, a)
    decreases |a|
  {
    if |a| > 0 { TextLessIrreflexive(a[1..]); }
  }

  lemma {:induction false} TextLessTransitive(a: string, b: string, c: string)
    requires TextLess(a, b) && TextLess(b, c)
    ensures TextLess(a, c)
    decreases |a|
  {
    if |a| > 0 && |b| > 0 && |c| > 0 && a[0] == b[0] && b[0] == c[0] {
      TextLessTransitive(a[1..], b[1..], c[1..]);
    }
  }

  lemma {:induction false} TextLessTotal(a: string, b: string)
    requires a != b
    ensures TextLess(a, b) || TextLess(b, a)
    decreases |a|
  {
    if |a| > 0 && |b| > 0 && a[0] == b[0] {
      assert a == [a[0]] + a[1..] && b == [b[0]] + b[1..];
      TextLessTotal(a[1..], b[1..]);
    }
  }

  /** A common prefix does not change how two texts compare. */
  lemma {:induction false} TextLessCommonPrefix(p: string, a: string, b: string)
    ensures TextLess(p + a, p + b) == TextLess(a, b)
    decreases |p|
  {
    if |p| > 0 {
      assert (p + a)[0] == p[0] == (p + b)[0];
      assert (p + a)[1..] == p[1..] + a && (p + b)[1..] == p[1..] + b;
      TextLessCommonPrefix(p[1..], a, b);
    } else {
      assert p + a == a && p + b == b;
    }
  }

  predicate StrictlyAscending(s: seq<string>) {
    forall i, j :: 0 <= i < j < |s| ==> TextLess(s[i], s[j])
  }

  /** Returns the least element of a non-empty set of strings. */
  method MinText(s: set<string>) returns (m: string)
    requires s != {}
    ensures m in s
    ensures forall x :: x in s && x != m ==> TextLess(m, x)
  {
    m :| m in s;
    var rest := s - {m};
    while rest != {}
      invariant m in s
      invariant rest <= s
      invariant forall x :: x in s - rest && x != m ==> TextLess(m, x)
      decreases rest
    {
      var x :| x in rest;
      if x != m {
        TextLessTotal(x, m);
        if TextLess(x, m) {
          forall y | y in s - (rest - {x}) && y != x ensures TextLess(x, y) {
            if y != m { TextLessTransitive(x, m, y); }
          }
          m := x;
        }
      }
      rest := rest - {x};
    }
  }

  /** The elements of a finite set of strings in ascending order, each once
      (what `SELECT DISTINCT … ORDER BY` answers). */
  method SortedDistinct(s: set<string>) returns (r: seq<string>)
    ensures StrictlyAscending(r)
    ensures forall x :: x in s <==> x in r
    ensures |r| == |s|
  {
    r := [];
    var rest := s;
    while rest != {}
      invariant rest <= s
      invariant StrictlyAscending(r)
      invariant forall x :: x in s <==> x in r || x in rest
      invariant forall x :: x in r ==> x !in rest
      invariant forall x, y :: x in r && y in rest ==> TextLess(x, y)
      invariant |r| + |rest| == |s|
      decreases rest
    {
      var m := MinText(rest);
      forall i | 0 <= i < |r| ensures TextLess(r[i], m) {
        assert r[i] in r;
      }
      r := r + [m];
      rest := rest - {m};
    }
  }

  /** Two sequences that agree on their first `j` elements agree on the
      first one, and their tails agree on `j - 1`. */
  lemma PrefixTail<T>(a: seq<T>, b: seq<T>, j: nat)
    requires 0 < j <= |a| && j <= |b| && a[..j] == b[..j]
    ensures a[0] == b[0]
    ensures a[1..][..j - 1] == b[1..][..j - 1]
  {
    assert a[..j][0] == b[..j][0];
    assert a[1..][..j - 1] == a[..j][1..];
    assert b[1..][..j - 1] == b[..j][1..];
  }
}
