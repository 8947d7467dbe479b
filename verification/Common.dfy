/** Small vocabulary shared by the models. A Dafny `char` stands for one UTF-16 code unit. */
module Common {
  datatype Option<+T> = None | Some(value: T)

  /** JavaScript white space, as matched by `\s` and removed by `trim`. */
  predicate IsSpace(c: char) {
    || c == ' ' || c == '\t' || c == '\n' || c == '\r' || c == '\U{000B}' || c == '\U{000C}'
    || c == '\U{00A0}' || c == '\U{FEFF}' || c == '\U{1680}' || '\U{2000}' <= c <= '\U{200A}'
    || c == '\U{2028}' || c == '\U{2029}' || c == '\U{202F}' || c == '\U{205F}' || c == '\U{3000}'
  }

  lemma IsSpaceIsLiteral(c: char)
    ensures IsSpace(c)
            <==> c in "\t\n\U{000B}\U{000C}\r \U{00A0}\U{1680}\U{2000}\U{2001}\U{2002}\U{2003}\U{2004}\U{2005}"
                 || c in "\U{2006}\U{2007}\U{2008}\U{2009}\U{200A}\U{2028}\U{2029}\U{202F}\U{205F}\U{3000}\U{FEFF}"
  {
  }

  function Min(a: int, b: int): int { if a <= b then a else b }

  function Max(a: int, b: int): int { if a <= b then b else a }

  lemma ConcatAssociates<T>(a: seq<T>, b: seq<T>, c: seq<T>)
    ensures a + (b + c) == a + b + c && a + [] == a && [] + a == a
  {
  }

  /** ASCII lower-casing; other characters stay as they are. */
  function LowerChar(c: char): char {
    if 'A' <= c <= 'Z' then ((c as int) - ('A' as int) + ('a' as int)) as char else c
  }

  function Lower(s: string): (t: string)
    ensures |t| == |s|
    ensures forall i :: 0 <= i < |s| ==> t[i] == LowerChar(s[i])
  {
    seq(|s|, i requires 0 <= i < |s| => LowerChar(s[i]))
  }

  /** The 26 capital letters become small ones. */
  lemma LowerCharIsLiteral(c: char)
    ensures var upper, lower := "ABCDEFGHIJKLMNOPQRSTUVWXYZ", "abcdefghijklmnopqrstuvwxyz";
            && (forall i :: 0 <= i < 26 && c == upper[i] ==> LowerChar(c) == lower[i])
            && (c !in upper ==> LowerChar(c) == c)
  {
  }

  /** `s.startsWith(prefix)` read at position `i`. */
  predicate StartsAt(s: string, i: nat, prefix: string) {
    i + |prefix| <= |s| && s[i..i + |prefix|] == prefix
  }

  predicate EndsWith(s: string, suffix: string) {
    |suffix| <= |s| && s[|s| - |suffix|..] == suffix
  }

  /** `s.split(sep)` for a one-character separator. */
  function Split(s: string, sep: char): (parts: seq<string>)
    ensures |parts| > 0
    ensures forall p, i :: p in parts && 0 <= i < |p| ==> p[i] != sep
  {
    if s == "" then [""]
    else
      var rest := Split(s[1..], sep);
      if s[0] == sep then [""] + rest else [[s[0]] + rest[0]] + rest[1..]
  }

  lemma {:induction false} SplitAtFirst(a: string, sep: char, b: string)
    requires sep !in a
    ensures Split(a + [sep] + b, sep) == [a] + Split(b, sep)
  {
    if a == "" {
      assert a + [sep] + b == [sep] + b;
    } else {
      var s := a + [sep] + b;
      assert s[1..] == a[1..] + [sep] + b;
      SplitAtFirst(a[1..], sep, b);
      assert s[0] == a[0] && [a[0]] + a[1..] == a;
    }
  }

  lemma {:induction false} SplitWithout(a: string, sep: char)
    requires sep !in a
    ensures Split(a, sep) == [a]
  {
    if a != "" {
      SplitWithout(a[1..], sep);
      assert [a[0]] + a[1..] == a;
    }
  }

  // ---------------------------------------------------------------- keys made of an id, a colon and a rest

  predicate ColonFree(s: string) { ':' !in s }

  function KeyOf(id: string, rest: string): string { id + ":" + rest }

  /** Keys of ids without colons, as UUIDs are, are equal only for equal parts. */
  lemma KeysAreDistinct(p: string, x: string, q: string, y: string)
    requires ColonFree(p) && ColonFree(q)
    ensures KeyOf(p, x) == KeyOf(q, y) <==> p == q && x == y
  {
    if KeyOf(p, x) == KeyOf(q, y) {
      SplitAtFirst(p, ':', x);
      SplitAtFirst(q, ':', y);
      assert p == Split(KeyOf(p, x), ':')[0] == q;
      assert KeyOf(p, x)[|p| + 1..] == x && KeyOf(q, y)[|q| + 1..] == y;
    }
  }

  /** The prefix test by which a project's keys are found. */
  predicate HasId(key: string, id: string) { StartsAt(key, 0, id + ":") }

  lemma HasIdIff(key: string, id: string)
    ensures HasId(key, id) <==> exists rest :: key == KeyOf(id, rest)
  {
    if HasId(key, id) {
      var n := |id| + 1;
      assert key[..n] == key[0..n] == id + ":";
      assert key == KeyOf(id, key[n..]);
    }
    forall rest | key == KeyOf(id, rest) ensures HasId(key, id) { assert key[0..|id| + 1] == id + ":"; }
  }

  /** The id that the test looks for is the key's own, or begins with it and a colon. */
  lemma PrefixIff(p: string, q: string, x: string)
    requires ColonFree(q)
    ensures HasId(KeyOf(q, x), p) <==> p == q || exists v, rest :: p == KeyOf(q, v) && x == KeyOf(v, rest)
  {
    HasIdIff(KeyOf(q, x), p);
    forall v, rest | p == KeyOf(q, v) && x == KeyOf(v, rest) ensures HasId(KeyOf(q, x), p) {
      assert KeyOf(q, x) == KeyOf(p, rest);
    }
    if HasId(KeyOf(q, x), p) && p != q {
      var rest :| KeyOf(q, x) == KeyOf(p, rest);
      LongerId(p, rest, q, x);
    }
  }

  /** If two readings of a key differ, the one whose id has a colon begins with the other's. */
  lemma LongerId(p: string, rest: string, q: string, x: string)
    requires ColonFree(q) && KeyOf(p, rest) == KeyOf(q, x) && p != q
    ensures |p| > |q| && p == KeyOf(q, p[|q| + 1..]) && x == KeyOf(p[|q| + 1..], rest)
  {
    var key, n := KeyOf(q, x), |q|;
    assert key[|p|] == ':' && key[n] == ':' && key[..n] == q && key[..|p|] == p;
    assert forall i :: 0 <= i < n ==> key[i] == q[i] != ':';
    assert |p| != n;
    var v := p[n + 1..];
    assert p == key[..n] + [key[n]] + v;
    assert x == key[n + 1..] == v + ":" + rest;
  }

  /** For an id without a colon the test selects exactly the keys of that id. */
  lemma PrefixIsExact(p: string, q: string, x: string)
    requires ColonFree(p) && ColonFree(q)
    ensures HasId(KeyOf(q, x), p) <==> q == p
  {
    PrefixIff(p, q, x);
    forall v ensures p != KeyOf(q, v) { assert KeyOf(q, v)[|q|] == ':'; }
  }

  lemma {:induction false} SubsetSize<T>(a: set<T>, b: set<T>)
    requires a <= b
    ensures |a| <= |b|
  {
    assert b == a + (b - a);
  }
}
