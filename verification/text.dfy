/** String helpers with JavaScript's semantics: the whitespace set of
    `String.prototype.trim` and of the regex class `\s`, ASCII case mapping,
    `split(/\s+/)`, first-match `replace`, and decimal rendering of naturals. */
module Text {

  /** The characters JavaScript counts as white space or line terminators. */
  predicate IsSpace(c: char) {
    c == ' ' || c == '\t' || c == '\n' || c == '\r' || c == '\U{000B}' || c == '\U{000C}'
    || c == '\U{00A0}' || c == '\U{1680}' || ('\U{2000}' <= c <= '\U{200A}')
    || c == '\U{2028}' || c == '\U{2029}' || c == '\U{202F}' || c == '\U{205F}'
    || c == '\U{3000}' || c == '\U{FEFF}'
  }

  predicate AllSpace(s: string) {
    forall i :: 0 <= i < |s| ==> IsSpace(s[i])
  }

  predicate HasSpace(s: string) {
    exists i :: 0 <= i < |s| && IsSpace(s[i])
  }

  /** No white space at either end. */
  predicate IsTrimmed(s: string) {
    s == [] || (!IsSpace(s[0]) && !IsSpace(s[|s| - 1]))
  }

  function TrimStart(s: string): (r: string)
    ensures |r| <= |s|
  {
    if s != [] && IsSpace(s[0]) then TrimStart(s[1..]) else s
  }

  /** `TrimStart` keeps a suffix that does not start with white space,
      shrinks a string that does, and keeps a last character that is not
      white space. */
  lemma {:induction false} TrimStartSuffix(s: string)
    ensures var r := TrimStart(s);
      && r == s[|s| - |r|..]
      && (r == [] || !IsSpace(r[0]))
      && (s != [] && IsSpace(s[0]) ==> |r| < |s|)
      && (s != [] && !IsSpace(s[|s| - 1]) ==> r != [] && r[|r| - 1] == s[|s| - 1])
  {
    if s != [] && IsSpace(s[0]) {
      TrimStartSuffix(s[1..]);
    }
  }

  function TrimEnd(s: string): (r: string)
    ensures |r| <= |s| && r == s[..|r|]
    ensures r == [] || !IsSpace(r[|r| - 1])
  {
    if s != [] && IsSpace(s[|s| - 1]) then TrimEnd(s[..|s| - 1]) else s
  }

  /** What `TrimEnd` removes is white space. */
  lemma {:induction false} TrimEndRemovesSpace(s: string)
    ensures AllSpace(s[|TrimEnd(s)|..])
  {
    if s != [] && IsSpace(s[|s| - 1]) {
      TrimEndRemovesSpace(s[..|s| - 1]);
      assert s[|TrimEnd(s)|..] == s[..|s| - 1][|TrimEnd(s)|..] + [s[|s| - 1]];
    }
  }

  /** `s.trim()`: the result is trimmed, it is empty exactly when `s` is all
      white space, and it leaves an already trimmed string alone. */
  function Trim(s: string): (r: string)
    ensures IsTrimmed(r)
    ensures r == [] <==> AllSpace(s)
    ensures IsTrimmed(s) ==> r == s
    ensures |r| <= |s|
  {
    if s != [] && IsSpace(s[0]) then
      var r := Trim(s[1..]);
      assert AllSpace(s[1..]) ==> AllSpace(s) by {
        if AllSpace(s[1..]) {
          assert forall i :: 1 <= i < |s| ==> s[i] == s[1..][i - 1];
        }
      }
      r
    else
      var r := TrimEnd(s);
      TrimEndRemovesSpace(s);
      r
  }

  function LowerChar(c: char): (d: char)
    ensures !('A' <= d <= 'Z')
    ensures IsSpace(d) <==> IsSpace(c)
  {
    if 'A' <= c <= 'Z' then (c as int + 32) as char else c
  }

  function UpperChar(c: char): (d: char) {
    if 'a' <= c <= 'z' then (c as int - 32) as char else c
  }

  predicate IsLowerAscii(c: char) { 'a' <= c <= 'z' }

  /** `toLowerCase()` restricted to ASCII letters. */
  function Lower(s: string): (r: string)
    ensures |r| == |s| && forall i :: 0 <= i < |s| ==> r[i] == LowerChar(s[i])
    ensures IsTrimmed(s) ==> IsTrimmed(r)
    ensures AllSpace(r) <==> AllSpace(s)
  {
    seq(|s|, i requires 0 <= i < |s| => LowerChar(s[i]))
  }

  /** `toUpperCase()` restricted to ASCII letters. */
  function Upper(s: string): (r: string)
    ensures |r| == |s| && forall i :: 0 <= i < |s| ==> r[i] == UpperChar(s[i])
    ensures forall i :: 0 <= i < |r| ==> !IsLowerAscii(r[i])
  {
    seq(|s|, i requires 0 <= i < |s| => UpperChar(s[i]))
  }

  lemma UpperPair(a: char, b: char)
    ensures Upper([a, b]) == [UpperChar(a), UpperChar(b)]
  {
  }

  predicate StartsWith(s: string, prefix: string) {
    |prefix| <= |s| && s[..|prefix|] == prefix
  }

  predicate MatchesAt(s: string, pat: string, k: int) {
    0 <= k && k + |pat| <= |s| && s[k..k + |pat|] == pat
  }

  predicate Contains(s: string, pat: string) {
    exists k | 0 <= k <= |s| - |pat| :: MatchesAt(s, pat, k)
  }

  function FindFrom(s: string, pat: string, from: nat): (k: int)
    requires from <= |s| + 1
    ensures k == -1 || (from <= k && MatchesAt(s, pat, k))
    ensures k == -1 ==> forall j :: from <= j ==> !MatchesAt(s, pat, j)
    ensures k != -1 ==> forall j :: from <= j < k ==> !MatchesAt(s, pat, j)
    decreases |s| + 1 - from
  {
    if from + |pat| > |s| then -1
    else if s[from..from + |pat|] == pat then from
    else FindFrom(s, pat, from + 1)
  }

  /** The index of the first occurrence of `pat` in `s`, or -1 (`indexOf`). */
  function Find(s: string, pat: string): (k: int)
    ensures k == -1 || MatchesAt(s, pat, k)
    ensures k == -1 ==> forall j :: !MatchesAt(s, pat, j)
    ensures k != -1 ==> forall j :: 0 <= j < k ==> !MatchesAt(s, pat, j)
    ensures k == -1 <==> !Contains(s, pat)
  {
    FindFrom(s, pat, 0)
  }

  /** `s.replace(pat, rep)` for a literal pattern: only the first match. */
  function ReplaceFirst(s: string, pat: string, rep: string): (r: string)
    ensures !Contains(s, pat) ==> r == s
    ensures Contains(s, pat) ==>
      var k := Find(s, pat);
      r == s[..k] + rep + s[k + |pat|..]
  {
    var k := Find(s, pat);
    if k < 0 then s else s[..k] + rep + s[k + |pat|..]
  }

  function DigitChar(d: nat): (c: char)
    requires d < 10
    ensures '0' <= c <= '9'
  {
    "0123456789"[d]
  }

  /** Decimal rendering of a natural number, as a template literal shows it. */
  function NatToString(n: nat): (r: string)
    ensures |r| >= 1
    ensures forall i :: 0 <= i < |r| ==> '0' <= r[i] <= '9'
    ensures n < 10 ==> r == [DigitChar(n)]
  {
    if n < 10 then [DigitChar(n)] else NatToString(n / 10) + [DigitChar(n % 10)]
  }

  /** Decimal form of an integer, with a leading '-' when negative (the
      template-literal form of an integral number). */
  function IntToString(n: int): string {
    if n < 0 then "-" + NatToString(-n) else NatToString(n)
  }

  /** Index of the first white space character, |s| if there is none. */
  function FirstSpace(s: string): (i: nat)
    ensures i <= |s|
    ensures i < |s| ==> IsSpace(s[i])
  {
    if s == [] then 0 else if IsSpace(s[0]) then 0 else 1 + FirstSpace(s[1..])
  }

  /** No white space comes before `FirstSpace`. */
  lemma {:induction false} FirstSpaceIsFirst(s: string)
    ensures forall j :: 0 <= j < FirstSpace(s) ==> !IsSpace(s[j])
  {
    if s != [] && !IsSpace(s[0]) {
      FirstSpaceIsFirst(s[1..]);
      assert forall j :: 1 <= j < |s| ==> s[j] == s[1..][j - 1];
    }
  }

  /** `s.split(/\s+/)`: the pieces between maximal runs of white space. */
  function Split(s: string): (parts: seq<string>)
    ensures |parts| >= 1
    decreases |s|
  {
    var i := FirstSpace(s);
    if i == |s| then [s] else TrimStartSuffix(s[i..]); [s[..i]] + Split(TrimStart(s[i..]))
  }

  /** The first piece runs up to the first white space; without white
      space the string is its only piece. */
  lemma SplitFirst(s: string)
    ensures !HasSpace(s) ==> Split(s) == [s]
    ensures Split(s)[0] == s[..FirstSpace(s)]
  {
  }

  /** In a trimmed string every piece of the split is non-empty, and there
      are at least two pieces exactly when the string holds white space. */
  lemma {:induction false} SplitTrimmed(s: string)
    requires IsTrimmed(s) && s != []
    ensures forall k :: 0 <= k < |Split(s)| ==> Split(s)[k] != []
    ensures |Split(s)| >= 2 <==> HasSpace(s)
    decreases |s|
  {
    var i := FirstSpace(s);
    FirstSpaceIsFirst(s);
    if i < |s| {
      var rest := TrimStart(s[i..]);
      TrimStartSuffix(s[i..]);
      assert i > 0;
      assert s[i..][|s| - i - 1] == s[|s| - 1];
      SplitTrimmed(rest);
      assert Split(s) == [s[..i]] + Split(rest);
    }
  }

  /** `parts.join(sep)`. */
  function Join(parts: seq<string>, sep: string): (r: string)
    ensures |parts| == 1 ==> r == parts[0]
  {
    if parts == [] then "" else if |parts| == 1 then parts[0] else parts[0] + sep + Join(parts[1..], sep)
  }

  /** Joining one more piece appends the separator and the piece. */
  lemma {:induction false} JoinSnoc(parts: seq<string>, x: string, sep: string)
    requires parts != []
    ensures Join(parts + [x], sep) == Join(parts, sep) + sep + x
  {
    if |parts| > 1 {
      assert (parts + [x])[1..] == parts[1..] + [x];
      JoinSnoc(parts[1..], x, sep);
    }
  }
}
