/** Go's string helpers as the repository uses them: trimming, case folding,
    and the decimal rendering behind time.Format. */
module Text {

  /** unicode.IsSpace */
  predicate IsSpace(c: char) {
    var n := c as int;
    || 0x09 <= n <= 0x0d || n == 0x20 || n == 0x85 || n == 0xa0 || n == 0x1680
    || 0x2000 <= n <= 0x200a || n == 0x2028 || n == 0x2029 || n == 0x202f || n == 0x205f || n == 0x3000
  }

  function TrimLeft(s: string): string {
    if s != [] && IsSpace(s[0]) then TrimLeft(s[1..]) else s
  }

  function TrimRight(s: string): string {
    if s != [] && IsSpace(s[|s| - 1]) then TrimRight(s[..|s| - 1]) else s
  }

  /** strings.TrimSpace */
  function TrimSpace(s: string): string {
    TrimRight(TrimLeft(s))
  }

  predicate Trimmed(s: string) {
    s != [] ==> !IsSpace(s[0]) && !IsSpace(s[|s| - 1])
  }

  lemma {:induction false} TrimRightKeepsHead(s: string)
    requires s != [] ==> !IsSpace(s[0])
    ensures Trimmed(TrimRight(s))
  {
    if s != [] && IsSpace(s[|s| - 1]) {
      TrimRightKeepsHead(s[..|s| - 1]);
    }
  }

  lemma {:induction false} TrimLeftHead(s: string)
    ensures TrimLeft(s) != [] ==> !IsSpace(TrimLeft(s)[0])
  {
    if s != [] && IsSpace(s[0]) {
      TrimLeftHead(s[1..]);
    }
  }

  /** Trimming leaves no outer space, and leaves text without outer space alone. */
  lemma TrimSpaceTrims(s: string)
    ensures Trimmed(TrimSpace(s))
    ensures Trimmed(s) ==> TrimSpace(s) == s
    ensures TrimSpace(TrimSpace(s)) == TrimSpace(s)
  {
    TrimLeftHead(s);
    TrimRightKeepsHead(TrimLeft(s));
  }

  /** Trimming takes nothing but space, and all of it, from both ends. */
  lemma TrimSpaceSays(s: string) returns (i: nat, j: nat)
    ensures i <= j <= |s| && TrimSpace(s) == s[i..j] && Trimmed(s[i..j])
    ensures forall k :: 0 <= k < i || j <= k < |s| ==> IsSpace(s[k])
  {
    TrimSpaceTrims(s);
    i := TrimLeftCuts(s);
    j := TrimRightCuts(s[i..]);
    assert s[i..][..j] == s[i..i + j];
    assert forall k :: i + j <= k < |s| ==> s[k] == s[i..][k - i];
    j := i + j;
  }

  lemma {:induction false} TrimLeftCuts(s: string) returns (i: nat)
    ensures i <= |s| && TrimLeft(s) == s[i..] && forall k :: 0 <= k < i ==> IsSpace(s[k])
  {
    i := 0;
    if s != [] && IsSpace(s[0]) {
      i := TrimLeftCuts(s[1..]);
      assert forall k :: 1 <= k < i + 1 ==> s[k] == s[1..][k - 1];
      i := i + 1;
    }
  }

  lemma {:induction false} TrimRightCuts(s: string) returns (j: nat)
    ensures j <= |s| && TrimRight(s) == s[..j] && forall k :: j <= k < |s| ==> IsSpace(s[k])
  {
    j := |s|;
    if s != [] && IsSpace(s[|s| - 1]) {
      var init := s[..|s| - 1];
      j := TrimRightCuts(init);
      assert init[..j] == s[..j];
      assert forall k :: j <= k < |s| - 1 ==> s[k] == init[k];
    }
  }

  /** unicode.ToLower, exact wherever the result is ASCII: U+0130 and U+212A
      are the only other characters that lower to an ASCII letter. */
  function LowerChar(c: char): char {
    if 'A' <= c <= 'Z' then ((c as int) + 32) as char
    else if c as int == 0x130 then 'i'
    else if c as int == 0x212a then 'k'
    else c
  }

  /** The simple case-folding class, exact for comparison with ASCII: U+017F
      folds to s and U+212A to k, but U+0130 folds to no ASCII letter. */
  function FoldChar(c: char): char {
    if 'A' <= c <= 'Z' then ((c as int) + 32) as char
    else if c as int == 0x17f then 's'
    else if c as int == 0x212a then 'k'
    else c
  }

  /** strings.ToLower */
  function ToLower(s: string): string {
    seq(|s|, i requires 0 <= i < |s| => LowerChar(s[i]))
  }

  function Fold(s: string): string {
    seq(|s|, i requires 0 <= i < |s| => FoldChar(s[i]))
  }

  /** strings.EqualFold */
  predicate EqualFold(a: string, b: string) {
    Fold(a) == Fold(b)
  }

  ghost predicate IsAscii(s: string) {
    forall i :: 0 <= i < |s| ==> s[i] as int < 0x80
  }

  /** On ASCII text, space is what isspace(3) says, lower-casing moves A-Z to
      a-z and nothing else, and texts are equal under folding exactly if they
      are equal in lower case. */
  lemma AsciiSays(c: char, s: string, t: string)
    requires c as int < 0x80 && IsAscii(s) && IsAscii(t)
    ensures IsSpace(c) <==> c == ' ' || 9 <= c as int <= 13
    ensures LowerChar(c) as int == if 'A' <= c <= 'Z' then c as int - 'A' as int + 'a' as int else c as int
    ensures EqualFold(s, t) <==> ToLower(s) == ToLower(t)
  {
    AsciiFolds(s);
    AsciiFolds(t);
  }

  /** The characters beyond ASCII that become ASCII letters: U+0130 and the
      Kelvin sign in lower case, the long s and the Kelvin sign under folding. */
  lemma OtherLettersSay(c: char)
    requires c as int >= 0x80
    ensures LowerChar(c) == if c == '\U{130}' then 'i' else if c == '\U{212a}' then 'k' else c
    ensures FoldChar(c) == if c == '\U{17f}' then 's' else if c == '\U{212a}' then 'k' else c
  {
  }

  lemma AsciiFolds(s: string)
    requires IsAscii(s)
    ensures Fold(s) == ToLower(s)
  {
  }

  /** Zero-padded decimal, as time.appendInt writes it. */
  function Decimal(n: nat, width: nat): (s: string)
    ensures s != []
    decreases n, width
  {
    if n < 10 && width <= 1 then [Digit(n)]
    else Decimal(n / 10, if width == 0 then 0 else width - 1) + [Digit(n % 10)]
  }

  function Digit(d: nat): char
    requires d < 10
  {
    (('0' as int) + d) as char
  }

  function ParseDecimal(s: string): int {
    if s == [] then 0 else 10 * ParseDecimal(s[..|s| - 1]) + (s[|s| - 1] as int - '0' as int)
  }

  ghost predicate IsDigits(s: string) {
    forall i :: 0 <= i < |s| ==> '0' <= s[i] <= '9'
  }

  lemma {:induction false} DecimalParses(n: nat, width: nat)
    ensures ParseDecimal(Decimal(n, width)) == n
    ensures IsDigits(Decimal(n, width))
    decreases n, width
  {
    var s := Decimal(n, width);
    if n < 10 && width <= 1 {
      assert s[..0] == [];
    } else {
      DecimalParses(n / 10, if width == 0 then 0 else width - 1);
      assert s[..|s| - 1] == Decimal(n / 10, if width == 0 then 0 else width - 1);
    }
  }

  function Pow10(w: nat): (p: nat)
    ensures p >= 1
  {
    if w == 0 then 1 else 10 * Pow10(w - 1)
  }

  lemma {:induction false} DecimalWidth(n: nat, width: nat)
    requires width >= 1 && n < Pow10(width)
    ensures |Decimal(n, width)| == width
  {
    if width > 1 {
      DecimalWidth(n / 10, width - 1);
    }
  }
}
