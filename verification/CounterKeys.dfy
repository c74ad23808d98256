/** The text of a counter key, `ratelimit:{subject}:{path}:{window}`, and why keys do not collide. */
module CounterKeys {

  function Digit(d: nat): char
    requires d < 10
  {
    '0' + d as char
  }

  predicate AllDigits(s: string) {
    forall i | 0 <= i < |s| :: '0' <= s[i] <= '9'
  }

  /** Decimal printing. */
  function Decimal(n: nat): (s: string)
    ensures s != "" && AllDigits(s)
  {
    if n < 10 then [Digit(n)] else Decimal(n / 10) + [Digit(n % 10)]
  }

  /** Decimal reading. */
  function DecimalValue(s: string): nat
    requires AllDigits(s)
  {
    if s == "" then 0 else 10 * DecimalValue(s[..|s| - 1]) + (s[|s| - 1] as nat - '0' as nat)
  }

  lemma {:induction false} ReadingUndoesPrinting(n: nat)
    ensures DecimalValue(Decimal(n)) == n
  {
    if n >= 10 {
      ReadingUndoesPrinting(n / 10);
      assert Decimal(n)[..|Decimal(n)| - 1] == Decimal(n / 10);
    }
  }

  /** Nothing is printed in front of the first digit of a number. */
  lemma {:induction false} NoLeadingZero(n: nat)
    ensures Decimal(n)[0] == '0' <==> n == 0
    ensures n < 10 ==> |Decimal(n)| == 1
  {
    if n >= 10 { NoLeadingZero(n / 10); }
  }

  /** `path.trim_end_matches('/')` */
  function SanitizePath(path: string): string {
    if path != "" && path[|path| - 1] == '/' then SanitizePath(path[..|path| - 1]) else path
  }

  /** The path of a request is empty or starts with a slash, and stays so. */
  lemma {:induction false} SanitizedPathShape(path: string)
    requires path == "" || path[0] == '/'
    ensures var p := SanitizePath(path); p == "" || (p[0] == '/' && p[|p| - 1] != '/')
  {
    if path != "" && path[|path| - 1] == '/' { SanitizedPathShape(path[..|path| - 1]); }
  }

  /** Sanitising cuts off the slashes at the end, all of them and nothing else. */
  lemma {:induction false} SanitizingCutsSlashes(path: string, slashes: string)
    requires path == "" || path[|path| - 1] != '/'
    requires forall i | 0 <= i < |slashes| :: slashes[i] == '/'
    ensures SanitizePath(path + slashes) == path
  {
    if slashes == "" {
      assert path + slashes == path;
    } else {
      var fewer := slashes[..|slashes| - 1];
      assert (path + slashes)[..|path + slashes| - 1] == path + fewer;
      SanitizingCutsSlashes(path, fewer);
    }
  }

  function CounterKey(subject: string, path: string, window: nat): string {
    "ratelimit:" + subject + ":" + path + ":" + Decimal(window)
  }

  /** What follows the last separator is determined by the whole. */
  lemma LastPieceIsDetermined(a: string, x: string, b: string, y: string, sep: char)
    requires sep !in x && sep !in y && a + [sep] + x == b + [sep] + y
    ensures a == b && x == y
  {
    var s, t := a + [sep] + x, b + [sep] + y;
    assert s[|a|] == sep && t[|b|] == sep;
    assert forall i | |a| < i < |s| :: s[i] == x[i - |a| - 1];
    assert forall i | |b| < i < |t| :: t[i] == y[i - |b| - 1];
    assert |a| == |b|;
    assert a == s[..|a|] && b == t[..|b|];
    assert x == s[|a| + 1..] && y == t[|b| + 1..];
  }

  /** The first slash tells a subject without slashes from a path that is empty or starts with one. */
  lemma SubjectEndsAtFirstSlash(s: string, p: string, t: string, q: string)
    requires '/' !in s && '/' !in t
    requires (p == "" || p[0] == '/') && (q == "" || q[0] == '/')
    requires s + ":" + p == t + ":" + q
    ensures s == t && p == q
  {
    var w := s + ":" + p;
    assert w == t + ":" + q;
    if p != "" { assert w[|s| + 1] == '/'; }
    if q != "" { assert w[|t| + 1] == '/'; }
    assert forall i | 0 <= i <= |s| :: w[i] != '/';
    assert forall i | 0 <= i <= |t| :: w[i] != '/';
    assert |s| == |t|;
    assert s == w[..|s|] == t;
    assert p == w[|s| + 1..] == q;
  }

  lemma RestIsDetermined(head: string, s: string, p: string, t: string, q: string)
    requires head + s + ":" + p == head + t + ":" + q
    ensures s + ":" + p == t + ":" + q
  {
    assert (head + s + ":" + p)[|head|..] == s + ":" + p;
    assert (head + t + ":" + q)[|head|..] == t + ":" + q;
  }

  /** Different buckets have different keys; subjects may contain colons, as IPv6 addresses do. */
  lemma KeysDoNotCollide(s: string, path: string, v: nat, t: string, path': string, w: nat)
    requires '/' !in s && '/' !in t
    requires (path == "" || path[0] == '/') && (path' == "" || path'[0] == '/')
    requires CounterKey(s, SanitizePath(path), v) == CounterKey(t, SanitizePath(path'), w)
    ensures s == t && SanitizePath(path) == SanitizePath(path') && v == w
  {
    var p, q := SanitizePath(path), SanitizePath(path');
    SanitizedPathShape(path);
    SanitizedPathShape(path');
    LastPieceIsDetermined("ratelimit:" + s + ":" + p, Decimal(v), "ratelimit:" + t + ":" + q, Decimal(w), ':');
    ReadingUndoesPrinting(v);
    ReadingUndoesPrinting(w);
    RestIsDetermined("ratelimit:", s, p, t, q);
    SubjectEndsAtFirstSlash(s, p, t, q);
  }
}
