/** The few string operations the models share. */
module Text {
  import opened CodeGraph

  predicate HasPrefix(s: string, prefix: string) {
    |prefix| <= |s| && s[..|prefix|] == prefix
  }

  predicate HasSuffix(s: string, suffix: string) {
    |suffix| <= |s| && s[|s| - |suffix|..] == suffix
  }

  predicate OccursAt(s: string, part: string, i: nat) {
    i + |part| <= |s| && s[i..i + |part|] == part
  }

  predicate Contains(s: string, part: string) {
    exists i :: 0 <= i <= |s| && OccursAt(s, part, i)
  }

  function TrimPrefix(s: string, prefix: string): string {
    if HasPrefix(s, prefix) then s[|prefix|..] else s
  }

  // What is said of prefixes, suffixes and parts, by putting texts together

  ghost predicate Begins(s: string, part: string) {
    exists t :: s == part + t
  }

  ghost predicate Ends(s: string, part: string) {
    exists t :: s == t + part
  }

  ghost predicate Has(s: string, part: string) {
    exists t, u :: s == t + (part + u)
  }

  lemma PrefixMeans(s: string, part: string)
    ensures HasPrefix(s, part) <==> Begins(s, part)
  {
    if HasPrefix(s, part) {
      assert s == part + s[|part|..];
    }
  }

  lemma SuffixMeans(s: string, part: string)
    ensures HasSuffix(s, part) <==> Ends(s, part)
  {
    if HasSuffix(s, part) {
      assert s == s[..|s| - |part|] + part;
    }
  }

  lemma ContainsMeans(s: string, part: string)
    ensures Contains(s, part) <==> Has(s, part)
  {
    if i :| 0 <= i <= |s| && OccursAt(s, part, i) {
      assert s == s[..i] + (part + s[i + |part|..]);
    }
    if t, u :| s == t + (part + u) {
      assert s[|t|..|t| + |part|] == part;
      assert OccursAt(s, part, |t|);
    }
  }

  lemma TrimPrefixMeans(s: string, part: string)
    ensures HasPrefix(s, part) ==> part + TrimPrefix(s, part) == s
    ensures !HasPrefix(s, part) ==> TrimPrefix(s, part) == s
  {
  }

  /** The text before and after the first `c`, if it occurs. */
  function Cut(s: string, c: char): Option<(string, string)> {
    if s == [] then None
    else if s[0] == c then Some(([], s[1..]))
    else
      match Cut(s[1..], c)
      case None => None
      case Some(p) => Some(([s[0]] + p.0, p.1))
  }

  lemma {:induction false} CutJoins(s: string, c: char)
    ensures Cut(s, c).None? <==> c !in s
    ensures Cut(s, c).Some? ==> c !in Cut(s, c).value.0 && s == Cut(s, c).value.0 + [c] + Cut(s, c).value.1
  {
    if s != [] {
      CutJoins(s[1..], c);
      assert s == [s[0]] + s[1..];
    }
  }

  lemma {:induction false} CutAt(a: string, c: char, b: string)
    requires c !in a
    ensures Cut(a + [c] + b, c) == Some((a, b))
  {
    var s := a + [c] + b;
    if a == [] {
      assert s[1..] == b;
    } else {
      assert s[1..] == a[1..] + [c] + b;
      CutAt(a[1..], c, b);
      assert a == [a[0]] + a[1..];
    }
  }

  /** The pieces between the occurrences of `c`. */
  function Split(s: string, c: char): (parts: seq<string>)
    ensures parts != []
    decreases |s|
  {
    CutJoins(s, c);
    match Cut(s, c)
    case None => [s]
    case Some(p) => [p.0] + Split(p.1, c)
  }

  /** The pieces put together again. */
  function Joined(parts: seq<string>, c: char): string
    requires parts != []
  {
    if |parts| == 1 then parts[0] else parts[0] + [c] + Joined(parts[1..], c)
  }

  /** The pieces give the text back, and none of them can be split again. */
  lemma {:induction false} SplitJoins(s: string, c: char)
    ensures Joined(Split(s, c), c) == s
    ensures forall p :: p in Split(s, c) ==> c !in p
    decreases |s|
  {
    CutJoins(s, c);
    if Cut(s, c).Some? {
      var p := Cut(s, c).value;
      SplitJoins(p.1, c);
      assert Split(s, c)[1..] == Split(p.1, c);
    }
  }

  /** ... which determines them. */
  lemma {:induction false} SplitOfJoined(parts: seq<string>, c: char)
    requires parts != [] && forall p :: p in parts ==> c !in p
    ensures Split(Joined(parts, c), c) == parts
  {
    assert parts[0] in parts;
    if |parts| == 1 {
      CutJoins(parts[0], c);
    } else {
      SplitOfJoined(parts[1..], c);
      CutAt(parts[0], c, Joined(parts[1..], c));
    }
  }

  /** A stretch of the text between two `c`s or its ends, with none inside. */
  ghost predicate IsPiece(s: string, c: char, i: nat, j: nat) {
    && i <= j <= |s| && (i == 0 || s[i - 1] == c) && (j == |s| || s[j] == c)
    && forall k :: i <= k < j ==> s[k] != c
  }

  /** Pieces beyond a separator, seen from the start and from behind the separator. */
  lemma PieceDropped(s: string, c: char, k: nat, i: nat, j: nat)
    requires 0 < k <= i <= j <= |s| && s[k - 1] == c
    ensures IsPiece(s, c, i, j) <==> IsPiece(s[k..], c, i - k, j - k)
    ensures s[k..][i - k..j - k] == s[i..j]
  {
    var b := s[k..];
    if IsPiece(s, c, i, j) {
      forall x | i - k <= x < j - k ensures b[x] != c { assert b[x] == s[x + k]; }
    }
    if IsPiece(b, c, i - k, j - k) {
      forall x | i <= x < j ensures s[x] != c { assert s[x] == b[x - k]; }
    }
    assert i > k ==> b[i - k - 1] == s[i - 1];
    assert j < |s| ==> b[j - k] == s[j];
  }

  lemma {:induction false} PieceIn(s: string, c: char, i: nat, j: nat)
    requires IsPiece(s, c, i, j)
    ensures s[i..j] in Split(s, c)
    decreases |s|
  {
    CutJoins(s, c);
    if Cut(s, c).None? {
      assert i == 0 && j == |s|;
      assert s[0..|s|] == s;
    } else {
      var a, b := Cut(s, c).value.0, Cut(s, c).value.1;
      assert s == a + [c] + b && s[|a|] == c;
      assert forall k :: 0 <= k < |a| ==> s[k] == a[k];
      if i == 0 {
        FirstPiece(s, c, a, b, j);
      } else {
        assert i > |a|;
        assert b == s[|a| + 1..];
        PieceDropped(s, c, |a| + 1, i, j);
        PieceIn(b, c, i - |a| - 1, j - |a| - 1);
      }
    }
  }

  lemma FirstPiece(s: string, c: char, a: string, b: string, j: nat)
    requires s == a + [c] + b && c !in a && IsPiece(s, c, 0, j)
    ensures j == |a| && s[0..j] == a
  {
    assert s[|a|] == c && forall k :: 0 <= k < |a| ==> s[k] == a[k];
    assert j == |a|;
  }

  lemma {:induction false} PieceAt(s: string, c: char, piece: string) returns (i: nat, j: nat)
    requires piece in Split(s, c)
    ensures IsPiece(s, c, i, j) && s[i..j] == piece
    decreases |s|
  {
    CutJoins(s, c);
    if Cut(s, c).None? {
      i, j := 0, |s|;
      assert s[0..|s|] == s;
    } else {
      var a, b := Cut(s, c).value.0, Cut(s, c).value.1;
      assert s == a + [c] + b;
      if piece == a {
        i, j := 0, |a|;
        assert s[0..|a|] == a;
      } else {
        i, j := PieceAt(b, c, piece);
        i, j := i + |a| + 1, j + |a| + 1;
        assert b == s[|a| + 1..];
        PieceDropped(s, c, |a| + 1, i, j);
      }
    }
  }

  /** The pieces are the stretches between two `c`s or the ends. */
  lemma PiecesExactly(s: string, c: char, piece: string)
    ensures piece in Split(s, c) <==> exists i: nat, j: nat :: IsPiece(s, c, i, j) && s[i..j] == piece
  {
    if piece in Split(s, c) {
      var i, j := PieceAt(s, c, piece);
    }
    if i: nat, j: nat :| IsPiece(s, c, i, j) && s[i..j] == piece {
      PieceIn(s, c, i, j);
    }
  }

  function Digit(d: nat): char
    requires d < 10
  {
    ['0', '1', '2', '3', '4', '5', '6', '7', '8', '9'][d]
  }

  function DigitValue(c: char): Option<nat> {
    if '0' <= c <= '9' then Some((c - '0') as nat) else None
  }

  /** A number in decimal. */
  function Decimal(n: nat): (s: string)
    ensures s != []
  {
    if n < 10 then [Digit(n)] else Decimal(n / 10) + [Digit(n % 10)]
  }

  function DecimalInt(i: int): string {
    if i < 0 then "-" + Decimal(-i) else Decimal(i)
  }

  /** The number a string of digits stands for. */
  function FromDecimal(s: string): Option<nat> {
    if s == [] then None
    else
      match DigitValue(s[|s| - 1])
      case None => None
      case Some(d) =>
        if |s| == 1 then Some(d)
        else
          match FromDecimal(s[..|s| - 1])
          case None => None
          case Some(n) => Some(10 * n + d)
  }

  lemma DigitReads(d: nat)
    requires d < 10
    ensures DigitValue(Digit(d)) == Some(d)
    ensures '0' <= Digit(d) <= '9'
  {
  }

  lemma {:induction false} DecimalReads(n: nat)
    ensures FromDecimal(Decimal(n)) == Some(n)
    ensures forall c :: c in Decimal(n) ==> '0' <= c <= '9'
  {
    DigitReads(n % 10);
    if n >= 10 {
      DecimalReads(n / 10);
      var s := Decimal(n / 10) + [Digit(n % 10)];
      assert s[..|s| - 1] == Decimal(n / 10);
    }
  }

  lemma SignShows(i: int)
    ensures DecimalInt(i) != [] && (DecimalInt(i)[0] == '-' <==> i < 0)
    ensures i < 0 ==> DecimalInt(i)[1..] == Decimal(-i)
    ensures forall c :: c in DecimalInt(i) ==> c == '-' || '0' <= c <= '9'
  {
    DecimalReads(if i < 0 then -i else i);
    if i >= 0 {
      assert Decimal(i)[0] in Decimal(i);
    }
  }

  lemma DecimalIntInjective(i: int, j: int)
    requires DecimalInt(i) == DecimalInt(j)
    ensures i == j
  {
    SignShows(i);
    SignShows(j);
    DecimalReads(if i < 0 then -i else i);
    DecimalReads(if j < 0 then -j else j);
  }
}
