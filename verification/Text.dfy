/** Text handling shared by the provider models: optional values, the case folding
    and trimming that Go's strings package applies to identities and labels, and
    decimal numbers as cursors carry them. */
module Text {

  datatype Option<+T> = None | Some(value: T)

  /** The white space of Go's regexp class \s. */
  predicate Space(c: char) {
    c == ' ' || c == '\t' || c == '\n' || c == '\r' || c == '\U{0c}'
  }

  /** What strings.TrimSpace drops from ASCII text: the vertical tab too. */
  predicate Trimmable(c: char) {
    Space(c) || c == '\U{0b}'
  }

  function LowerChar(c: char): char {
    if 'A' <= c <= 'Z' then (c as int + 32) as char else c
  }

  function Lower(s: string): string {
    seq(|s|, i requires 0 <= i < |s| => LowerChar(s[i]))
  }

  /** strings.EqualFold on ASCII text. */
  predicate SameFold(a: string, b: string) {
    Lower(a) == Lower(b)
  }

  function TrimLeft(s: string): string {
    if s != [] && Trimmable(s[0]) then TrimLeft(s[1..]) else s
  }

  function TrimRight(s: string): string {
    if s != [] && Trimmable(s[|s| - 1]) then TrimRight(s[..|s| - 1]) else s
  }

  function Trim(s: string): string {
    TrimRight(TrimLeft(s))
  }

  lemma {:induction false} TrimLeftOfLower(s: string)
    ensures TrimLeft(Lower(s)) == Lower(TrimLeft(s))
  {
    if s != [] && Trimmable(s[0]) {
      assert Lower(s)[1..] == Lower(s[1..]);
      TrimLeftOfLower(s[1..]);
    }
  }

  lemma {:induction false} TrimRightOfLower(s: string)
    ensures TrimRight(Lower(s)) == Lower(TrimRight(s))
  {
    if s != [] && Trimmable(s[|s| - 1]) {
      assert Lower(s)[..|s| - 1] == Lower(s[..|s| - 1]);
      TrimRightOfLower(s[..|s| - 1]);
    }
  }

  /** Lower-casing and trimming commute. */
  lemma TrimOfLower(s: string)
    ensures Trim(Lower(s)) == Lower(Trim(s))
  {
    TrimLeftOfLower(s);
    TrimRightOfLower(TrimLeft(s));
  }

  lemma {:induction false} TrimLeftEnds(s: string)
    ensures var t := TrimLeft(s); t == [] || !Trimmable(t[0])
    ensures s != [] && !Trimmable(s[|s| - 1]) ==> TrimLeft(s) != [] && TrimLeft(s)[|TrimLeft(s)| - 1] == s[|s| - 1]
  {
    if s != [] && Trimmable(s[0]) {
      TrimLeftEnds(s[1..]);
    }
  }

  lemma {:induction false} TrimRightEnds(s: string)
    ensures var t := TrimRight(s); t == [] || !Trimmable(t[|t| - 1])
    ensures s != [] && !Trimmable(s[0]) ==> TrimRight(s) != [] && TrimRight(s)[0] == s[0]
  {
    if s != [] && Trimmable(s[|s| - 1]) {
      TrimRightEnds(s[..|s| - 1]);
    }
  }

  /** Trimming twice is trimming once. */
  lemma TrimTwice(s: string)
    ensures Trim(Trim(s)) == Trim(s)
  {
    TrimLeftEnds(s);
    TrimRightEnds(TrimLeft(s));
  }

  const WHITE_SPACE := " \t\n\U{0b}\U{0c}\r"

  ghost predicate Outside(s: string, i: nat, j: nat) {
    && i <= j <= |s|
    && (forall k :: 0 <= k < i ==> s[k] in WHITE_SPACE)
    && (forall k :: j <= k < |s| ==> s[k] in WHITE_SPACE)
  }

  lemma {:induction false} TrimLeftDrops(s: string) returns (i: nat)
    ensures Outside(s, i, |s|) && TrimLeft(s) == s[i..]
  {
    i := 0;
    if s != [] && Trimmable(s[0]) {
      i := TrimLeftDrops(s[1..]);
      assert s[1..][i..] == s[i + 1..];
      forall k | 0 <= k < i + 1 ensures s[k] in WHITE_SPACE {
        assert k > 0 ==> s[k] == s[1..][k - 1];
      }
      i := i + 1;
    }
  }

  lemma {:induction false} TrimRightDrops(s: string) returns (j: nat)
    ensures Outside(s, 0, j) && TrimRight(s) == s[..j]
  {
    j := |s|;
    if s != [] && Trimmable(s[|s| - 1]) {
      j := TrimRightDrops(s[..|s| - 1]);
      assert s[..|s| - 1][..j] == s[..j];
      forall k | j <= k < |s| ensures s[k] in WHITE_SPACE {
        assert k < |s| - 1 ==> s[k] == s[..|s| - 1][k];
      }
    }
  }

  /** Trimming drops white space from both ends, all of it and nothing else. */
  lemma TrimMeans(s: string)
    ensures exists i: nat, j: nat :: Outside(s, i, j) && Trim(s) == s[i..j]
    ensures Trim(s) != "" ==> Trim(s)[0] !in WHITE_SPACE && Trim(s)[|Trim(s)| - 1] !in WHITE_SPACE
  {
    TrimLeftEnds(s);
    TrimRightEnds(TrimLeft(s));
    var i := TrimLeftDrops(s);
    var n := TrimRightDrops(TrimLeft(s));
    assert s[i..][..n] == s[i..i + n];
    forall k | i + n <= k < |s| ensures s[k] in WHITE_SPACE {
      assert s[k] == s[i..][k - i];
    }
    assert Outside(s, i, i + n);
  }

  /** The same character, or the two cases of one letter. */
  ghost predicate SameLetter(x: char, y: char) {
    || x == y
    || ('A' <= x <= 'Z' && y as int - 'a' as int == x as int - 'A' as int)
    || ('A' <= y <= 'Z' && x as int - 'a' as int == y as int - 'A' as int)
  }

  /** Folding goes letter by letter. */
  lemma SameFoldMeans(a: string, b: string)
    ensures SameFold(a, b) <==> |a| == |b| && forall i :: 0 <= i < |a| ==> SameLetter(a[i], b[i])
  {
    if SameFold(a, b) {
      assert |Lower(a)| == |Lower(b)|;
      forall i | 0 <= i < |a| ensures SameLetter(a[i], b[i]) {
        assert Lower(a)[i] == Lower(b)[i];
      }
    }
  }

  predicate Digits(s: string) {
    forall i :: 0 <= i < |s| ==> '0' <= s[i] <= '9'
  }

  /** strconv.Itoa for a non-negative number. */
  function Itoa(n: nat): (s: string)
    ensures s != [] && Digits(s)
  {
    if n < 10 then [(n + '0' as int) as char] else Itoa(n / 10) + [(n % 10 + '0' as int) as char]
  }

  function DigitsValue(s: string): nat
    requires Digits(s)
  {
    if s == [] then 0 else 10 * DigitsValue(s[..|s| - 1]) + (s[|s| - 1] as int - '0' as int)
  }

  /** strconv.Atoi: an optional sign and at least one digit. */
  function Atoi(s: string): (r: Option<int>)
    ensures r.Some? ==> s != []
  {
    if s != [] && (s[0] == '-' || s[0] == '+') then
      if |s| > 1 && Digits(s[1..]) then
        var magnitude: int := DigitsValue(s[1..]);
        Some(if s[0] == '-' then -magnitude else magnitude)
      else None
    else if s != [] && Digits(s) then Some(DigitsValue(s))
    else None
  }

  lemma {:induction false} DigitsValueOfItoa(n: nat)
    ensures DigitsValue(Itoa(n)) == n
  {
    if n >= 10 {
      DigitsValueOfItoa(n / 10);
      assert Itoa(n)[..|Itoa(n)| - 1] == Itoa(n / 10);
    }
  }

  /** A printed number reads back as itself, and never as a signed one. */
  lemma AtoiOfItoa(n: nat)
    ensures Atoi(Itoa(n)) == Some(n)
  {
    DigitsValueOfItoa(n);
    assert '0' <= Itoa(n)[0] <= '9';
  }
}
