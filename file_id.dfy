/**
 * The file-number check `CaseFile._validate_id`: `re.match(r'\d+/\d+/\d{4}', s)`.
 * `re.match` anchors at the start only, so this is a PREFIX test: anything may follow
 * the four year digits. `\d` on a byte string is the ASCII digit class.
 */
module FileId {

  predicate IsDigit(c: char) {
    '0' <= c <= '9'
  }

  predicate AllDigits(s: string) {
    forall i :: 0 <= i < |s| ==> IsDigit(s[i])
  }

  /** Length of the run of digits that starts at index `i` (what a greedy `\d+` consumes). */
  function DigitRun(s: string, i: nat): (n: nat)
    requires i <= |s|
    ensures i + n <= |s|
    ensures forall j :: i <= j < i + n ==> IsDigit(s[j])
    ensures i + n == |s| || !IsDigit(s[i + n])
    decreases |s| - i
  {
    if i < |s| && IsDigit(s[i]) then 1 + DigitRun(s, i + 1) else 0
  }

  /**
   * The hand matcher: a greedy digit run, '/', a greedy digit run, '/', four digits.
   * Greedy runs lose nothing here because '/' is not a digit, so no backtracking is needed.
   */
  function ValidateId(s: string): bool {
    var a := DigitRun(s, 0);
    1 <= a < |s| && s[a] == '/' &&
    var b := DigitRun(s, a + 1);
    1 <= b && a + b + 6 <= |s| && s[a + 1 + b] == '/' &&
    AllDigits(s[a + b + 2..a + b + 6])
  }

  /** The pattern read declaratively: `p` digits, '/', `q` digits, '/', four digits, then anything. */
  ghost predicate MatchesAt(s: string, p: int, q: int) {
    1 <= p && 1 <= q && p + q + 6 <= |s| &&
    AllDigits(s[..p]) && s[p] == '/' &&
    AllDigits(s[p + 1..p + 1 + q]) && s[p + 1 + q] == '/' &&
    AllDigits(s[p + q + 2..p + q + 6])
  }

  ghost predicate FileIdPrefix(s: string) {
    exists p, q :: MatchesAt(s, p, q)
  }

  /** A digit run that ends at a non-digit (or the end) is exactly what DigitRun measures. */
  lemma {:induction false} DigitRunExact(s: string, i: nat, n: nat)
    requires i + n <= |s|
    requires AllDigits(s[i..i + n])
    requires i + n == |s| || !IsDigit(s[i + n])
    ensures DigitRun(s, i) == n
    decreases n
  {
    if n > 0 {
      assert IsDigit(s[i..i + n][0]);
      assert s[i + 1..i + 1 + (n - 1)] == s[i..i + n][1..];
      DigitRunExact(s, i + 1, n - 1);
    }
  }

  /** The matcher accepts exactly the strings that START with digits/digits/4-digits. */
  lemma ValidateIdMeansPrefixMatch(s: string)
    ensures ValidateId(s) <==> FileIdPrefix(s)
  {
    if ValidateId(s) {
      var a := DigitRun(s, 0);
      var b := DigitRun(s, a + 1);
      assert AllDigits(s[..a]);
      assert AllDigits(s[a + 1..a + 1 + b]);
      assert MatchesAt(s, a, b);
    }
    if FileIdPrefix(s) {
      var p, q :| MatchesAt(s, p, q);
      DigitRunExact(s, 0, p);
      DigitRunExact(s, p + 1, q);
    }
  }

  /** Trailing text after a well-formed prefix does not matter: "1/2/2024x" is accepted. */
  lemma ExtendingKeepsValid(s: string, tail: string)
    requires ValidateId(s)
    ensures ValidateId(s + tail)
  {
    ValidateIdMeansPrefixMatch(s);
    var p, q :| MatchesAt(s, p, q);
    var t := s + tail;
    assert t[..p] == s[..p];
    assert t[p + 1..p + 1 + q] == s[p + 1..p + 1 + q];
    assert t[p + q + 2..p + q + 6] == s[p + q + 2..p + q + 6];
    assert MatchesAt(t, p, q);
    ValidateIdMeansPrefixMatch(t);
  }

  /** A file number of the usual shape, `123/2024/0001`, is accepted. */
  lemma AcceptsSampleNumber()
    ensures ValidateId("123/2024/0001")
  {
    var s := "123/2024/0001";
    DigitRunExact(s, 0, 3);
    DigitRunExact(s, 4, 4);
    assert s[9..13] == "0001";
  }

  /** A trailing character after the year is accepted, because the match is a prefix match. */
  lemma AcceptsTrailingText()
    ensures ValidateId("1/2/2024x")
  {
    DigitRunExact("1/2/2024", 0, 1);
    DigitRunExact("1/2/2024", 2, 1);
    assert "1/2/2024"[4..8] == "2024";
    ExtendingKeepsValid("1/2/2024", "x");
    assert "1/2/2024" + "x" == "1/2/2024x";
  }

  /** A party name is not a file number. */
  lemma RejectsName()
    ensures !ValidateId("abc")
  {
    assert DigitRun("abc", 0) == 0;
  }
}
