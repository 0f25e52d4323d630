/** String primitives the catalog filter relies on: the whitespace class shared by
    JavaScript's `\s` and `String.prototype.trim`, splitting a label attribute into
    tokens, trimming, ASCII lower-casing and decimal rendering of a count. */
module Text {

  /** JavaScript WhiteSpace and LineTerminator code points (what `\s` and `trim` remove). */
  predicate IsSpace(c: char) {
    c == ' ' || c == '\t' || c == '\n' || c == '\r' || c == '\U{000B}' || c == '\U{000C}'
    || c == '\U{00A0}' || c == '\U{1680}' || ('\U{2000}' <= c <= '\U{200A}')
    || c == '\U{2028}' || c == '\U{2029}' || c == '\U{202F}' || c == '\U{205F}'
    || c == '\U{3000}' || c == '\U{FEFF}'
  }

  predicate SpaceFree(s: string) {
    forall i :: 0 <= i < |s| ==> !IsSpace(s[i])
  }

  predicate AllSpace(s: string) {
    forall i :: 0 <= i < |s| ==> IsSpace(s[i])
  }

  /** A string with no whitespace at either end. */
  predicate Trimmed(s: string) {
    s == [] || (!IsSpace(s[0]) && !IsSpace(s[|s| - 1]))
  }

  // ---------------------------------------------------------------------------
  // Tokenising: `s.split(/\s+/).filter(Boolean)`

  /** Length of the run of non-whitespace characters at the front of `s`. */
  function WordLength(s: string): (n: nat)
    ensures n <= |s|
    ensures SpaceFree(s[..n])
    ensures n < |s| ==> IsSpace(s[n])
    ensures s != [] && !IsSpace(s[0]) ==> n > 0
  {
    if s == [] || IsSpace(s[0]) then 0 else 1 + WordLength(s[1..])
  }

  /** The maximal runs of non-whitespace characters of `s`, in order. Splitting on
      whitespace runs and dropping empty pieces yields exactly these. */
  function Tokens(s: string): seq<string>
    decreases |s|
  {
    if s == [] then []
    else if IsSpace(s[0]) then Tokens(s[1..])
    else
      var n := WordLength(s);
      [s[..n]] + Tokens(s[n..])
  }

  /** `s` with every whitespace character removed (reference for what tokens keep). */
  function NonSpace(s: string): string {
    if s == [] then []
    else if IsSpace(s[0]) then NonSpace(s[1..])
    else [s[0]] + NonSpace(s[1..])
  }

  function Concat(ws: seq<string>): string {
    if ws == [] then [] else ws[0] + Concat(ws[1..])
  }

  /** Well-formed tokens joined by single spaces: the canonical form of a label attribute. */
  function Join(ws: seq<string>): string {
    if ws == [] then []
    else if |ws| == 1 then ws[0]
    else ws[0] + " " + Join(ws[1..])
  }

  predicate WellFormedTokens(ws: seq<string>) {
    forall k :: 0 <= k < |ws| ==> ws[k] != [] && SpaceFree(ws[k])
  }

  /** No token is empty and no token contains whitespace. */
  lemma {:induction false} TokensWellFormed(s: string)
    ensures WellFormedTokens(Tokens(s))
    decreases |s|
  {
    if s == [] {
    } else if IsSpace(s[0]) {
      TokensWellFormed(s[1..]);
    } else {
      TokensWellFormed(s[WordLength(s)..]);
    }
  }

  lemma {:induction false} NonSpaceAppend(a: string, b: string)
    ensures NonSpace(a + b) == NonSpace(a) + NonSpace(b)
    decreases |a|
  {
    if a == [] {
      assert a + b == b;
    } else {
      assert (a + b)[1..] == a[1..] + b;
      NonSpaceAppend(a[1..], b);
    }
  }

  lemma {:induction false} NonSpaceOfWord(w: string)
    requires SpaceFree(w)
    ensures NonSpace(w) == w
    decreases |w|
  {
    if w != [] {
      NonSpaceOfWord(w[1..]);
    }
  }

  /** Tokenising loses nothing but whitespace: the tokens, concatenated, are the input's
      non-whitespace characters in their original order. */
  lemma {:induction false} TokensKeepText(s: string)
    ensures Concat(Tokens(s)) == NonSpace(s)
    decreases |s|
  {
    if s == [] {
    } else if IsSpace(s[0]) {
      TokensKeepText(s[1..]);
    } else {
      var n := WordLength(s);
      var ws := Tokens(s);
      assert ws == [s[..n]] + Tokens(s[n..]);
      assert ws[1..] == Tokens(s[n..]);
      TokensKeepText(s[n..]);
      assert s == s[..n] + s[n..];
      NonSpaceAppend(s[..n], s[n..]);
      NonSpaceOfWord(s[..n]);
    }
  }

  /** A word followed by nothing or by whitespace is read back as that word. */
  lemma WordLengthOfWord(w: string, rest: string)
    requires w != [] && SpaceFree(w)
    requires rest == [] || IsSpace(rest[0])
    ensures WordLength(w + rest) == |w|
    decreases |w|
  {
    if |w| > 1 {
      assert (w + rest)[1..] == w[1..] + rest;
      WordLengthOfWord(w[1..], rest);
    } else {
      assert (w + rest)[1..] == rest;
    }
  }

  /** Splitting the canonical space-joined form gives back the tokens it was built from. */
  lemma {:induction false} TokensOfJoin(ws: seq<string>)
    requires WellFormedTokens(ws)
    ensures Tokens(Join(ws)) == ws
    decreases |ws|
  {
    if ws == [] {
    } else {
      var w := ws[0];
      var rest := if |ws| == 1 then [] else " " + Join(ws[1..]);
      assert Join(ws) == w + rest;
      WordLengthOfWord(w, rest);
      assert (w + rest)[..|w|] == w;
      assert (w + rest)[|w|..] == rest;
      if |ws| > 1 {
        assert rest[1..] == Join(ws[1..]);
        TokensOfJoin(ws[1..]);
      }
    }
  }

  /** Leading whitespace never produces a token. */
  lemma {:induction false} TokensSkipSpace(sp: string, rest: string)
    requires AllSpace(sp)
    ensures Tokens(sp + rest) == Tokens(rest)
    decreases |sp|
  {
    if sp != [] {
      assert (sp + rest)[1..] == sp[1..] + rest;
      TokensSkipSpace(sp[1..], rest);
    } else {
      assert sp + rest == rest;
    }
  }

  /** Separators for `ws`: one before each word and one after the last, all whitespace,
      and those between two words non-empty. */
  predicate Separators(ws: seq<string>, seps: seq<string>) {
    && |seps| == |ws| + 1
    && (forall k :: 0 <= k < |seps| ==> AllSpace(seps[k]))
    && (forall k :: 0 < k < |ws| ==> seps[k] != [])
  }

  /** Words separated by arbitrary whitespace runs, with optional whitespace at either end:
      any attribute value a page can carry. */
  function JoinWith(ws: seq<string>, seps: seq<string>): string
    requires |seps| == |ws| + 1
  {
    if ws == [] then seps[0] else seps[0] + ws[0] + JoinWith(ws[1..], seps[1..])
  }

  /** A `JoinWith` of at least one word that is not led by a separator starts with that
      separator's first character; otherwise it is whitespace only. */
  lemma JoinWithStart(ws: seq<string>, seps: seq<string>)
    requires Separators(ws, seps)
    requires ws != [] ==> seps[0] != []
    ensures var r := JoinWith(ws, seps); r == [] || IsSpace(r[0])
  {
    if ws != [] {
      assert JoinWith(ws, seps)[0] == seps[0][0];
    }
  }

  /** Splitting words separated by any whitespace runs, with any whitespace at either end,
      gives back exactly those words. */
  lemma {:induction false} TokensOfJoinWith(ws: seq<string>, seps: seq<string>)
    requires WellFormedTokens(ws) && Separators(ws, seps)
    ensures Tokens(JoinWith(ws, seps)) == ws
    decreases |ws|
  {
    if ws == [] {
      TokensSkipSpace(seps[0], []);
      assert seps[0] + [] == seps[0];
    } else {
      var w, r := ws[0], JoinWith(ws[1..], seps[1..]);
      assert Separators(ws[1..], seps[1..]);
      JoinWithStart(ws[1..], seps[1..]);
      assert JoinWith(ws, seps) == seps[0] + (w + r);
      TokensSkipSpace(seps[0], w + r);
      WordLengthOfWord(w, r);
      assert (w + r)[..|w|] == w;
      assert (w + r)[|w|..] == r;
      TokensOfJoinWith(ws[1..], seps[1..]);
    }
  }

  // ---------------------------------------------------------------------------
  // Trimming: `String.prototype.trim`

  /** Number of whitespace characters at the front of `s`. */
  function LeadingSpace(s: string): (n: nat)
    ensures n <= |s|
    ensures forall i :: 0 <= i < n ==> IsSpace(s[i])
    ensures n < |s| ==> !IsSpace(s[n])
  {
    if s != [] && IsSpace(s[0]) then 1 + LeadingSpace(s[1..]) else 0
  }

  /** Number of whitespace characters at the back of `s`. */
  function TrailingSpace(s: string): (n: nat)
    ensures n <= |s|
    ensures forall i :: |s| - n <= i < |s| ==> IsSpace(s[i])
    ensures n < |s| ==> !IsSpace(s[|s| - 1 - n])
  {
    if s != [] && IsSpace(s[|s| - 1]) then 1 + TrailingSpace(s[..|s| - 1]) else 0
  }

  /** `String.prototype.trim`: removes the whitespace at both ends. */
  function Trim(s: string): (r: string)
    ensures Trimmed(r)
  {
    var a := LeadingSpace(s);
    if a == |s| then
      []
    else
      var b := TrailingSpace(s);
      assert a < |s| - b;
      s[a..|s| - b]
  }

  /** Trimming keeps a slice of its input and cuts only whitespace from either side;
      it yields the empty string exactly when the input is all whitespace. */
  lemma TrimCutsOnlySpace(s: string)
    ensures var r, k := Trim(s), LeadingSpace(s);
      k + |r| <= |s| && r == s[k..k + |r|] && AllSpace(s[..k]) && AllSpace(s[k + |r|..])
    ensures Trim(s) == [] <==> AllSpace(s)
  {
    if LeadingSpace(s) == |s| {
      assert s[..|s|] == s;
    }
  }

  /** Trimming a string that is already trimmed changes nothing. */
  lemma TrimOfTrimmed(s: string)
    requires Trimmed(s)
    ensures Trim(s) == s
  {
  }

  // ---------------------------------------------------------------------------
  // Lower-casing (ASCII letters only)

  predicate IsUpper(c: char) {
    'A' <= c <= 'Z'
  }

  function LowerChar(c: char): char {
    if IsUpper(c) then (c as int + 32) as char else c
  }

  function Lower(s: string): (r: string)
    ensures |r| == |s|
    ensures forall i :: 0 <= i < |s| ==> r[i] == LowerChar(s[i])
  {
    if s == [] then [] else [LowerChar(s[0])] + Lower(s[1..])
  }

  predicate NoUpper(s: string) {
    forall i :: 0 <= i < |s| ==> !IsUpper(s[i])
  }

  /** Lower-casing leaves a string unchanged exactly when it has no upper-case letter,
      and its result never has one. */
  lemma LowerFixedPoint(s: string)
    ensures Lower(s) == s <==> NoUpper(s)
    ensures NoUpper(Lower(s))
  {
    if Lower(s) == s {
      forall i | 0 <= i < |s| ensures !IsUpper(s[i]) {
        assert LowerChar(s[i]) == s[i];
      }
    }
  }

  /** Lower-casing does not move whitespace, so it keeps a trimmed string trimmed. */
  lemma LowerKeepsTrimmed(s: string)
    requires Trimmed(s)
    ensures Trimmed(Lower(s))
  {
  }

  // ---------------------------------------------------------------------------
  // Decimal rendering of a count, as in a template literal `${n}`

  predicate IsDigit(c: char) {
    '0' <= c <= '9'
  }

  function DigitChar(d: nat): (c: char)
    requires d < 10
    ensures IsDigit(c) && c as int - '0' as int == d
  {
    ('0' as int + d) as char
  }

  /** The decimal numeral of `n`: only digits, and no leading zero except for 0 itself. */
  function NatToString(n: nat): (s: string)
    ensures s != []
    ensures forall i :: 0 <= i < |s| ==> IsDigit(s[i])
    ensures s[0] == '0' ==> n == 0
    decreases n
  {
    if n < 10 then [DigitChar(n)] else NatToString(n / 10) + [DigitChar(n % 10)]
  }

  function DigitOf(c: char): nat
    requires IsDigit(c)
  {
    c as int - '0' as int
  }

  /** The value a string of decimal digits denotes. */
  function DigitsValue(s: string): nat
    requires forall i :: 0 <= i < |s| ==> IsDigit(s[i])
  {
    if s == [] then 0
    else DigitsValue(s[..|s| - 1]) * 10 + DigitOf(s[|s| - 1])
  }

  /** Reading the numeral back gives the number it was rendered from. */
  lemma {:induction false} NatToStringRoundTrip(n: nat)
    ensures DigitsValue(NatToString(n)) == n
    decreases n
  {
    var s := NatToString(n);
    if n >= 10 {
      assert s[..|s| - 1] == NatToString(n / 10);
      NatToStringRoundTrip(n / 10);
    }
  }
}
