/**
 * The pieces of java.lang.String and java.lang.Integer/Long that the line
 * parsers rely on: `split` with a literal delimiter, `trim`,
 * `Integer.parseInt` and `Long.toString`.
 */
module Text {
  import opened Wrappers
  import opened JavaInt

  /** `d` occurs in `s` starting at index `j`. */
  predicate OccursAt(s: string, d: string, j: int) {
    0 <= j && j + |d| <= |s| && s[j..j + |d|] == d
  }

  /** An occurrence in `s[1..]` is one in `s`, one place further on. */
  lemma OccursShift(s: string, d: string, j: int)
    requires 1 <= j && |s| > 0
    ensures OccursAt(s[1..], d, j - 1) == OccursAt(s, d, j)
  {
    if j + |d| <= |s| {
      assert s[1..][j - 1..j - 1 + |d|] == s[j..j + |d|];
    }
  }

  /** Index of the first occurrence of `d` in `s`, or -1 when there is none. */
  function IndexOf(s: string, d: string): (k: int)
    requires |d| > 0
    ensures k >= 0 ==> OccursAt(s, d, k)
    ensures k < 0 ==> k == -1
    ensures forall j :: 0 <= j < (if k < 0 then |s| else k) ==> !OccursAt(s, d, j)
    decreases |s|
  {
    if |s| < |d| then -1
    else if s[..|d|] == d then 0
    else
      var k := IndexOf(s[1..], d);
      assert s[0..|d|] == s[..|d|];
      forall j | 1 <= j < (if k < 0 then |s| else k + 2)
        ensures OccursAt(s[1..], d, j - 1) == OccursAt(s, d, j)
      {
        OccursShift(s, d, j);
      }
      if k < 0 then -1 else k + 1
  }

  /** A slice that ends before the first occurrence of `d` holds no occurrence of `d`. */
  lemma NoOccurrenceBefore(s: string, d: string, k: nat)
    requires |d| > 0 && k <= |s|
    requires forall j :: 0 <= j < k ==> !OccursAt(s, d, j)
    ensures IndexOf(s[..k], d) < 0
  {
    var p := s[..k];
    forall j | 0 <= j && j + |d| <= k
      ensures OccursAt(p, d, j) == OccursAt(s, d, j)
    {
      var a, b := p[j..j + |d|], s[j..j + |d|];
      assert forall t :: 0 <= t < |d| ==> a[t] == b[t];
      assert a == b;
    }
  }

  /** A string without the first character of `d` holds no occurrence of `d`. */
  lemma NoFirstCharNoOccurrence(s: string, d: string)
    requires |d| > 0
    requires forall i :: 0 <= i < |s| ==> s[i] != d[0]
    ensures IndexOf(s, d) < 0
  {
    forall j | 0 <= j < |s|
      ensures !OccursAt(s, d, j)
    {
      if j + |d| <= |s| {
        assert s[j..j + |d|][0] == s[j];
      }
    }
  }

  /** In `a + d + b`, where `a` has no character `d[0]`, the first `d` follows `a`. */
  lemma IndexAfterPrefix(a: string, d: string, b: string)
    requires |d| > 0
    requires forall i :: 0 <= i < |a| ==> a[i] != d[0]
    ensures IndexOf(a + d + b, d) == |a|
  {
    var s := a + d + b;
    assert s[|a|..|a| + |d|] == d;
    assert OccursAt(s, d, |a|);
    forall j | 0 <= j < |a|
      ensures !OccursAt(s, d, j)
    {
      assert s[j] == a[j];
      if j + |d| <= |s| {
        assert s[j..j + |d|][0] == s[j];
      }
    }
  }

  /** `ps` joined with `d` between consecutive pieces. */
  function Join(ps: seq<string>, d: string): string {
    if |ps| == 0 then ""
    else if |ps| == 1 then ps[0]
    else ps[0] + d + Join(ps[1..], d)
  }

  /**
   * `s` cut at the leftmost non-overlapping occurrences of `d`, keeping every
   * piece (also empty ones).
   */
  function Pieces(s: string, d: string): (ps: seq<string>)
    requires |d| > 0
    ensures |ps| > 0
    ensures Join(ps, d) == s
    ensures forall i :: 0 <= i < |ps| ==> IndexOf(ps[i], d) < 0
    decreases |s|
  {
    var k := IndexOf(s, d);
    if k < 0 then [s]
    else
      var rest := Pieces(s[k + |d|..], d);
      assert s == s[..k] + d + s[k + |d|..];
      NoOccurrenceBefore(s, d, k);
      [s[..k]] + rest
  }

  /** `ps` without its trailing empty strings. */
  function DropTrailingEmpty(ps: seq<string>): (r: seq<string>)
    ensures |r| <= |ps| && r == ps[..|r|]
    ensures r == [] || r[|r| - 1] != ""
    ensures forall i :: |r| <= i < |ps| ==> ps[i] == ""
  {
    if |ps| > 0 && ps[|ps| - 1] == "" then DropTrailingEmpty(ps[..|ps| - 1]) else ps
  }

  /**
   * Java's `s.split(d)` for a delimiter without regular-expression
   * metacharacters: when `d` does not occur the result is `[s]` (even for
   * the empty string); otherwise the pieces with trailing empty ones dropped.
   */
  function Split(s: string, d: string): (fields: seq<string>)
    requires |d| > 0
    ensures IndexOf(s, d) < 0 ==> fields == [s]
    ensures forall i :: 0 <= i < |fields| ==> IndexOf(fields[i], d) < 0
  {
    if IndexOf(s, d) < 0 then [s] else DropTrailingEmpty(Pieces(s, d))
  }

  /**
   * Two fields written with the delimiter between them are split back, when
   * neither holds the delimiter's first character and the second is not empty.
   */
  lemma {:induction false} SplitTwo(a: string, d: string, b: string)
    requires |d| > 0 && b != ""
    requires forall i :: 0 <= i < |a| ==> a[i] != d[0]
    requires forall i :: 0 <= i < |b| ==> b[i] != d[0]
    ensures Split(a + d + b, d) == [a, b]
  {
    var s := a + d + b;
    IndexAfterPrefix(a, d, b);
    NoFirstCharNoOccurrence(b, d);
    assert s[|a| + |d|..] == b;
    assert s[..|a|] == a;
    assert Pieces(s, d) == [a, b];
  }

  /** `d` written `k` times. */
  function Repeat(d: string, k: nat): (r: string)
    ensures |r| == k * |d|
  {
    if k == 0 then "" else Repeat(d, k - 1) + d
  }

  /**
   * Splitting gives back the line: the fields, joined again with the
   * delimiter, are the line without its trailing delimiters; what is lost is
   * the delimiter repeated some number of times.
   */
  lemma {:induction false} SplitJoin(s: string, d: string)
    requires |d| > 0
    ensures exists k: nat :: s == Join(Split(s, d), d) + Repeat(d, k)
  {
    if IndexOf(s, d) >= 0 {
      var ps := Pieces(s, d);
      var r := DropTrailingEmpty(ps);
      JoinDropTrailing(ps, |r|, d);
    } else {
      assert s == Join(Split(s, d), d) + Repeat(d, 0);
    }
  }

  /** Joining one more piece adds the delimiter and that piece. */
  lemma {:induction false} JoinSnoc(ps: seq<string>, x: string, d: string)
    requires ps != []
    ensures Join(ps + [x], d) == Join(ps, d) + d + x
    decreases |ps|
  {
    if |ps| > 1 {
      assert (ps + [x])[1..] == ps[1..] + [x];
      JoinSnoc(ps[1..], x, d);
    }
  }

  /**
   * Pieces that end in empty strings join to the join of the pieces before
   * them followed by one delimiter per dropped piece (one fewer when nothing
   * is kept).
   */
  lemma {:induction false} JoinDropTrailing(ps: seq<string>, n: nat, d: string)
    requires 0 < |ps| && n <= |ps|
    requires forall i :: n <= i < |ps| ==> ps[i] == ""
    ensures Join(ps, d) == Join(ps[..n], d) + Repeat(d, if n == 0 then |ps| - 1 else |ps| - n)
    decreases |ps|
  {
    if n == |ps| {
      assert ps[..n] == ps;
    } else if |ps| == 1 {
      assert Join(ps, d) == "";
    } else {
      var q := ps[..|ps| - 1];
      JoinDropTrailing(q, n, d);
      assert q[..n] == ps[..n];
      assert ps == q + [""];
      JoinSnoc(q, "", d);
    }
  }

  /** Java's `trim` removes leading and trailing characters up to U+0020. */
  predicate IsTrimmed(c: char) {
    c <= ' '
  }

  function TrimStart(s: string): (r: string)
    ensures |r| <= |s| && r == s[|s| - |r|..]
    ensures r == [] || !IsTrimmed(r[0])
    ensures forall i :: 0 <= i < |s| - |r| ==> IsTrimmed(s[i])
  {
    if |s| > 0 && IsTrimmed(s[0]) then TrimStart(s[1..]) else s
  }

  function TrimEnd(s: string): (r: string)
    ensures |r| <= |s| && r == s[..|r|]
    ensures r == [] || !IsTrimmed(r[|r| - 1])
    ensures forall i :: |r| <= i < |s| ==> IsTrimmed(s[i])
  {
    if |s| > 0 && IsTrimmed(s[|s| - 1]) then TrimEnd(s[..|s| - 1]) else s
  }

  /**
   * Java's `String.trim`: the longest slice of `s` that neither starts nor
   * ends with a character up to U+0020, obtained by removing only such
   * characters.
   */
  function Trim(s: string): (r: string)
    ensures exists i, j :: 0 <= i <= j <= |s| && r == s[i..j]
                           && (forall k :: 0 <= k < i ==> IsTrimmed(s[k]))
                           && (forall k :: j <= k < |s| ==> IsTrimmed(s[k]))
    ensures r == [] || (!IsTrimmed(r[0]) && !IsTrimmed(r[|r| - 1]))
  {
    var a := TrimStart(s);
    var b := TrimEnd(a);
    var i := |s| - |a|;
    assert b == s[i..i + |b|];
    b
  }

  /** A string that neither starts nor ends with such a character is its own trim. */
  lemma TrimUntouched(s: string)
    requires s == [] || (!IsTrimmed(s[0]) && !IsTrimmed(s[|s| - 1]))
    ensures Trim(s) == s
  {
  }

  predicate IsDigit(c: char) {
    '0' <= c <= '9'
  }

  predicate AllDigits(s: string) {
    forall i :: 0 <= i < |s| ==> IsDigit(s[i])
  }

  /** The value of a string of decimal digits, most significant first. */
  function DigitsValue(s: string): (v: nat)
    requires AllDigits(s)
  {
    if |s| == 0 then 0
    else 10 * DigitsValue(s[..|s| - 1]) + (s[|s| - 1] as int - '0' as int)
  }

  /** The decimal digits of `n`, without leading zeros. */
  function NatToString(n: nat): (s: string)
    ensures |s| > 0 && AllDigits(s)
    ensures DigitsValue(s) == n
    ensures s[0] != '0' || n == 0
  {
    var last := (n % 10 + '0' as int) as char;
    if n < 10 then [last]
    else
      var init := NatToString(n / 10);
      var s := init + [last];
      assert s[..|s| - 1] == init;
      s
  }

  /** Java's `Long.toString` (and `Integer.toString`): decimal, `-` for negatives. */
  function IntToString(n: int): (s: string)
  {
    if n < 0 then "-" + NatToString(-n) else NatToString(n)
  }

  /** The text of a number holds no comma, so a comma-separated field can carry it. */
  lemma IntToStringNoComma(n: int)
    ensures forall i :: 0 <= i < |IntToString(n)| ==> IntToString(n)[i] != ','
  {
    var s := IntToString(n);
    if n < 0 {
      assert forall i :: 1 <= i < |s| ==> s[i] == NatToString(-n)[i - 1];
    }
  }

  /**
   * Java's `Integer.parseInt(s)`: an optional `-` or `+`, then one or more
   * decimal digits, with a value in the range of `int`. `None` is the
   * NumberFormatException.
   */
  function ParseInt(s: string): (r: Option<Int32>)
    ensures r.Some? ==> |s| > 0
    ensures r.Some? && (s[0] == '-' || s[0] == '+') ==> |s| > 1 && AllDigits(s[1..])
    ensures r.Some? && s[0] != '-' && s[0] != '+' ==> AllDigits(s)
  {
    if |s| == 0 then None
    else
      var signed := s[0] == '-' || s[0] == '+';
      var body := if signed then s[1..] else s;
      if |body| == 0 || !AllDigits(body) then None
      else
        var v: int := if s[0] == '-' then -(DigitsValue(body) as int) else DigitsValue(body);
        if InInt32(v) then Some(v) else None
  }

  /** Parsing a printed `int` gives it back. */
  lemma ParseIntToString(n: Int32)
    ensures ParseInt(IntToString(n)) == Some(n)
  {
    var s := IntToString(n);
    if n < 0 {
      assert s[1..] == NatToString(-(n as int));
    }
  }

  /** A number without sign is parsed when it fits an `int`, and never when it does not. */
  lemma ParseIntDigits(s: string)
    requires |s| > 0 && AllDigits(s)
    ensures ParseInt(s) == if DigitsValue(s) <= MaxInt then Some(DigitsValue(s)) else None
  {
  }
}
