/** The string helpers of `components/qr-sign-dialog.tsx`: HTML escaping
    for the print window, the download file name, and the share link shown
    without its scheme. */
module QrSignDialog {
  import Text

  // ------------------------------------------------------------ escapeHtml

  /** `s.replace(/c/g, rep)` for a one-character pattern. */
  function ReplaceAll(s: string, c: char, rep: string): (r: string)
    ensures c !in rep ==> c !in r
  {
    if s == [] then [] else (if s[0] == c then rep else [s[0]]) + ReplaceAll(s[1..], c, rep)
  }

  /** A pass whose pattern does not occur leaves the string alone. */
  lemma {:induction false} ReplaceAllAbsent(s: string, c: char, rep: string)
    requires c !in s
    ensures ReplaceAll(s, c, rep) == s
  {
    if s != [] {
      ReplaceAllAbsent(s[1..], c, rep);
    }
  }

  /** A pass adds no character that neither the string nor the
      replacement holds. */
  lemma {:induction false} ReplaceAllKeepsAbsent(s: string, c: char, rep: string, d: char)
    requires d !in s && d !in rep
    ensures d !in ReplaceAll(s, c, rep)
  {
    if s != [] {
      ReplaceAllKeepsAbsent(s[1..], c, rep, d);
    }
  }

  /** A pass over one character. */
  lemma ReplaceAllOne(x: char, c: char, rep: string)
    ensures ReplaceAll([x], c, rep) == if x == c then rep else [x]
  {
    assert ReplaceAll([x], c, rep) == (if x == c then rep else [x]) + ReplaceAll([], c, rep);
  }

  /** A pass works piece by piece. */
  lemma {:induction false} ReplaceAllAppend(a: string, b: string, c: char, rep: string)
    ensures ReplaceAll(a + b, c, rep) == ReplaceAll(a, c, rep) + ReplaceAll(b, c, rep)
  {
    if a == [] {
      assert a + b == b;
    } else {
      var h := if a[0] == c then rep else [a[0]];
      assert (a + b)[0] == a[0];
      assert (a + b)[1..] == a[1..] + b;
      assert ReplaceAll(a + b, c, rep) == h + ReplaceAll(a[1..] + b, c, rep);
      ReplaceAllAppend(a[1..], b, c, rep);
    }
  }

  /** `escapeHtml`: four global passes, `&` first. */
  function EscapeHtml(str: string): string
  {
    ReplaceAll(ReplaceAll(ReplaceAll(ReplaceAll(str, '&', "&amp;"), '<', "&lt;"), '>', "&gt;"), '"', "&quot;")
  }

  /** The entity of one character: each of `&<>"` by its entity, anything
      else by itself. */
  function EscapeChar(c: char): string {
    if c == '&' then "&amp;"
    else if c == '<' then "&lt;"
    else if c == '>' then "&gt;"
    else if c == '"' then "&quot;"
    else [c]
  }

  /** Character-by-character escaping, the reference for `escapeHtml`. */
  function EscapeEach(s: string): string {
    if s == [] then [] else EscapeChar(s[0]) + EscapeEach(s[1..])
  }

  /** The last three passes each leave an entity alone. */
  lemma LaterPassesKeep(e: string)
    requires e in {"&amp;", "&lt;", "&gt;", "&quot;"}
    ensures ReplaceAll(e, '<', "&lt;") == e && ReplaceAll(e, '>', "&gt;") == e && ReplaceAll(e, '"', "&quot;") == e
  {
    assert '<' !in e && '>' !in e && '"' !in e;
    ReplaceAllAbsent(e, '<', "&lt;");
    ReplaceAllAbsent(e, '>', "&gt;");
    ReplaceAllAbsent(e, '"', "&quot;");
  }

  /** The four passes escape one character as its entity. */
  lemma EscapeOne(x: char)
    ensures EscapeHtml([x]) == EscapeChar(x)
  {
    ReplaceAllOne(x, '&', "&amp;");
    if x == '&' {
      LaterPassesKeep("&amp;");
    } else {
      ReplaceAllOne(x, '<', "&lt;");
      if x == '<' {
        LaterPassesKeep("&lt;");
      } else {
        ReplaceAllOne(x, '>', "&gt;");
        if x == '>' {
          LaterPassesKeep("&gt;");
        } else {
          ReplaceAllOne(x, '"', "&quot;");
        }
      }
    }
  }

  /** Escaping with the four passes, `&` first, is the same as escaping
      each character on its own: an `&` produced by a later pass is never
      escaped again. */
  lemma {:induction false} EscapeHtmlIsEscapeEach(s: string)
    ensures EscapeHtml(s) == EscapeEach(s)
  {
    if s != [] {
      var x, rest := s[0], s[1..];
      assert s == [x] + rest;
      var p1 := ReplaceAll(s, '&', "&amp;");
      ReplaceAllAppend([x], rest, '&', "&amp;");
      ReplaceAllAppend(ReplaceAll([x], '&', "&amp;"), ReplaceAll(rest, '&', "&amp;"), '<', "&lt;");
      var q2 := ReplaceAll(ReplaceAll([x], '&', "&amp;"), '<', "&lt;");
      var r2 := ReplaceAll(ReplaceAll(rest, '&', "&amp;"), '<', "&lt;");
      ReplaceAllAppend(q2, r2, '>', "&gt;");
      ReplaceAllAppend(ReplaceAll(q2, '>', "&gt;"), ReplaceAll(r2, '>', "&gt;"), '"', "&quot;");
      EscapeOne(x);
      EscapeHtmlIsEscapeEach(rest);
    }
  }

  /** The four entities. */
  predicate IsEntityAt(t: string, i: int) {
    Text.MatchesAt(t, "&amp;", i) || Text.MatchesAt(t, "&lt;", i)
    || Text.MatchesAt(t, "&gt;", i) || Text.MatchesAt(t, "&quot;", i)
  }

  /** Every `&` starts one of the four entities. */
  predicate AmpersandsAreEntities(t: string) {
    forall i :: 0 <= i < |t| && t[i] == '&' ==> IsEntityAt(t, i)
  }

  /** An entity found in the tail is still there after a prefix. */
  lemma EntityShift(a: string, b: string, i: int)
    requires IsEntityAt(b, i)
    ensures IsEntityAt(a + b, |a| + i)
  {
    var t := a + b;
    forall e: string | Text.MatchesAt(b, e, i) ensures Text.MatchesAt(t, e, |a| + i) {
      assert t[|a| + i..|a| + i + |e|] == b[i..i + |e|];
    }
  }

  /** Every `&` of the escaped text starts an entity. */
  lemma {:induction false} EscapeEachAmpersands(s: string)
    ensures AmpersandsAreEntities(EscapeEach(s))
  {
    if s != [] {
      var h := EscapeChar(s[0]);
      var rest := EscapeEach(s[1..]);
      EscapeEachAmpersands(s[1..]);
      var t := h + rest;
      forall i | 0 <= i < |t| && t[i] == '&' ensures IsEntityAt(t, i) {
        if i < |h| {
          assert i == 0 && h != [s[0]];
          assert t[..|h|] == h;
        } else {
          assert rest[i - |h|] == '&';
          EntityShift(h, rest, i - |h|);
        }
      }
    }
  }

  /** The output of `escapeHtml` holds no `<`, `>` or `"`, and each of its
      `&` begins `&amp;`, `&lt;`, `&gt;` or `&quot;`. */
  lemma EscapeHtmlIsSafe(str: string)
    ensures '<' !in EscapeHtml(str) && '>' !in EscapeHtml(str) && '"' !in EscapeHtml(str)
    ensures AmpersandsAreEntities(EscapeHtml(str))
  {
    var p1 := ReplaceAll(str, '&', "&amp;");
    var p2 := ReplaceAll(p1, '<', "&lt;");
    var p3 := ReplaceAll(p2, '>', "&gt;");
    ReplaceAllKeepsAbsent(p2, '>', "&gt;", '<');
    ReplaceAllKeepsAbsent(p3, '"', "&quot;", '<');
    ReplaceAllKeepsAbsent(p3, '"', "&quot;", '>');
    EscapeHtmlIsEscapeEach(str);
    EscapeEachAmpersands(str);
  }

  /** A string without `&<>"` comes out unchanged; a `'` in particular
      passes through. */
  lemma EscapeHtmlIdentity(str: string)
    requires '&' !in str && '<' !in str && '>' !in str && '"' !in str
    ensures EscapeHtml(str) == str
  {
    ReplaceAllAbsent(str, '&', "&amp;");
    ReplaceAllAbsent(str, '<', "&lt;");
    ReplaceAllAbsent(str, '>', "&gt;");
    ReplaceAllAbsent(str, '"', "&quot;");
  }

  // ------------------------------------------------------- download name

  predicate IsAsciiAlnum(c: char) {
    'a' <= c <= 'z' || 'A' <= c <= 'Z' || '0' <= c <= '9'
  }

  /** `replace(/[^a-zA-Z0-9]/g, "-")`. */
  function Sanitize(title: string): (r: string)
    ensures |r| == |title|
    ensures forall i :: 0 <= i < |title| ==> r[i] == if IsAsciiAlnum(title[i]) then title[i] else '-'
  {
    seq(|title|, i requires 0 <= i < |title| => if IsAsciiAlnum(title[i]) then title[i] else '-')
  }

  const FileSuffix: string := "-qr-code.png"

  /** The download name of the QR image. */
  function DownloadName(poolTitle: string): string {
    Text.Lower(Sanitize(poolTitle)) + FileSuffix
  }

  /** The name is the title, character for character, with every letter
      lowered and everything outside `[A-Za-z0-9]` turned into `-`,
      followed by "-qr-code.png"; so before the suffix it holds only
      `[a-z0-9-]`. */
  lemma DownloadNameShape(poolTitle: string)
    ensures var name := DownloadName(poolTitle);
      && |name| == |poolTitle| + 12
      && name[|poolTitle|..] == FileSuffix
      && (forall i :: 0 <= i < |poolTitle| ==>
            name[i] == if IsAsciiAlnum(poolTitle[i]) then Text.LowerChar(poolTitle[i]) else '-')
      && (forall i :: 0 <= i < |poolTitle| ==> name[i] == '-' || 'a' <= name[i] <= 'z' || '0' <= name[i] <= '9')
  {
  }

  // ---------------------------------------------------------- displayUrl

  /** `shareUrl.replace(/^https?:\/\/(www\.)?/, "")`. */
  function DisplayUrl(shareUrl: string): (r: string)
    ensures |r| <= |shareUrl| && r == shareUrl[|shareUrl| - |r|..]
  {
    var rest :=
      if Text.StartsWith(shareUrl, "https://") then shareUrl[8..]
      else if Text.StartsWith(shareUrl, "http://") then shareUrl[7..]
      else shareUrl;
    if rest != shareUrl && Text.StartsWith(rest, "www.") then rest[4..] else rest
  }

  /** "https://" and "http://" exclude each other. */
  lemma SchemesExclusive(u: string)
    ensures Text.StartsWith(u, "https://") ==> !Text.StartsWith(u, "http://")
  {
    if Text.StartsWith(u, "https://") {
      assert u[4] == "https://"[4] == 's';
    }
  }

  /** A prefix of a prefix: `p + q` leads `u` exactly when `p` does and `q`
      leads what follows it. */
  lemma StartsWithConcat(u: string, p: string, q: string)
    ensures Text.StartsWith(u, p + q) <==> Text.StartsWith(u, p) && Text.StartsWith(u[|p|..], q)
  {
    if Text.StartsWith(u, p + q) {
      assert u[..|p|] == (p + q)[..|p|];
      assert u[|p|..][..|q|] == u[|p|..|p| + |q|] == (p + q)[|p|..];
    }
    if Text.StartsWith(u, p) && Text.StartsWith(u[|p|..], q) {
      assert u[..|p| + |q|] == u[..|p|] + u[|p|..][..|q|];
    }
  }

  /** The shown link drops "https://www.", "https://", "http://www." or
      "http://" — the longest of these it starts with — and a link
      without either scheme is shown as it is: "www." goes only right
      after a scheme. */
  lemma DisplayUrlCases(u: string)
    ensures Text.StartsWith(u, "https://www.") ==> DisplayUrl(u) == u[12..]
    ensures Text.StartsWith(u, "https://") && !Text.StartsWith(u, "https://www.") ==> DisplayUrl(u) == u[8..]
    ensures Text.StartsWith(u, "http://www.") ==> DisplayUrl(u) == u[11..]
    ensures Text.StartsWith(u, "http://") && !Text.StartsWith(u, "http://www.") ==> DisplayUrl(u) == u[7..]
    ensures !Text.StartsWith(u, "http://") && !Text.StartsWith(u, "https://") ==> DisplayUrl(u) == u
  {
    SchemesExclusive(u);
    StartsWithConcat(u, "https://", "www.");
    StartsWithConcat(u, "http://", "www.");
    assert "https://" + "www." == "https://www.";
    assert "http://" + "www." == "http://www.";
    if Text.StartsWith(u, "https://") {
      assert u[8..] != u;
    } else if Text.StartsWith(u, "http://") {
      assert u[7..] != u;
    }
  }
}
