/**
 * The C string functions the parser and the proxy rely on, over byte buffers that are followed
 * by a NUL: strstr, strchr, strtok with a single space, atoi, and decimal printing.
 */
module CText {
  import opened Wrappers

  const NUL: char := '\0'
  const CRLF: string := "\r\n"

  // ---------------------------------------------------------------- searching

  predicate MatchAt(buf: string, k: nat, pat: string) {
    k + |pat| <= |buf| && forall i {:trigger pat[i]} :: 0 <= i < |pat| ==> buf[k + i] == pat[i]
  }

  // strstr from position `pos`: the first match that no NUL precedes.
  function StrStr(buf: string, pos: nat, pat: string): (r: Option<nat>)
    ensures r.Some? ==> pos <= r.value && MatchAt(buf, r.value, pat)
    ensures r.Some? ==> forall j :: pos <= j < r.value && j < |buf| ==> buf[j] != NUL
    ensures r.Some? ==> forall j {:trigger MatchAt(buf, j, pat)} :: pos <= j < r.value ==> !MatchAt(buf, j, pat)
    decreases |buf| - pos
  {
    if pos >= |buf| || buf[pos] == NUL then None
    else if MatchAt(buf, pos, pat) then Some(pos)
    else StrStr(buf, pos + 1, pat)
  }

  lemma {:induction false} StrStrIs(buf: string, pos: nat, pat: string, k: nat)
    requires pos <= k && MatchAt(buf, k, pat) && |pat| > 0 && pat[0] != NUL
    requires forall j :: pos <= j < k ==> buf[j] != NUL
    requires forall j {:trigger MatchAt(buf, j, pat)} :: pos <= j < k ==> !MatchAt(buf, j, pat)
    ensures StrStr(buf, pos, pat) == Some(k)
    decreases k - pos
  {
    if pos < k {
      StrStrIs(buf, pos + 1, pat, k);
    } else {
      assert buf[k + 0] == pat[0];
    }
  }

  // A match that no NUL precedes is enough for strstr to find one.
  lemma {:induction false} StrStrFinds(buf: string, pos: nat, pat: string, k: nat)
    requires pos <= k && MatchAt(buf, k, pat) && |pat| > 0 && pat[0] != NUL
    requires forall j :: pos <= j < k ==> buf[j] != NUL
    ensures StrStr(buf, pos, pat).Some? && StrStr(buf, pos, pat).value <= k
    decreases k - pos
  {
    assert buf[k + 0] == pat[0];
    if pos < k && !MatchAt(buf, pos, pat) {
      StrStrFinds(buf, pos + 1, pat, k);
    }
  }

  lemma {:induction false} StrStrNone(buf: string, pos: nat, pat: string)
    requires forall k :: pos <= k <= |buf| && MatchAt(buf, k, pat) ==> exists j :: pos <= j <= k && j < |buf| && buf[j] == NUL
    requires |pat| > 0
    ensures StrStr(buf, pos, pat) == None
    decreases |buf| - pos
  {
    if pos < |buf| && buf[pos] != NUL {
      StrStrNone(buf, pos + 1, pat);
    }
  }

  // strchr: the first position of c; |s| when there is none.
  function StrChrFrom(s: string, c: char, pos: nat): (k: nat)
    requires pos <= |s|
    ensures pos <= k <= |s|
    ensures k < |s| ==> s[k] == c
    ensures forall j :: pos <= j < k ==> s[j] != c
    decreases |s| - pos
  {
    if pos == |s| || s[pos] == c then pos else StrChrFrom(s, c, pos + 1)
  }

  function StrChr(s: string, c: char): (k: nat)
    ensures k <= |s|
    ensures k < |s| ==> s[k] == c
    ensures forall j :: 0 <= j < k ==> s[j] != c
  {
    StrChrFrom(s, c, 0)
  }

  // ---------------------------------------------------------------- words

  function SkipSpaces(s: string, pos: nat): (k: nat)
    requires pos <= |s|
    ensures pos <= k <= |s|
    ensures k < |s| ==> s[k] != ' '
    ensures forall j :: pos <= j < k ==> s[j] == ' '
    decreases |s| - pos
  {
    if pos == |s| || s[pos] != ' ' then pos else SkipSpaces(s, pos + 1)
  }

  // strtok(_, " ") from `pos`: the next word, and where the following call resumes.
  function StrTok(s: string, pos: nat): (r: (Option<string>, nat))
    requires pos <= |s|
    ensures pos <= r.1 <= |s|
    ensures r.0.Some? ==> r.0.value != "" && ' ' !in r.0.value && r.1 > pos
  {
    var start := SkipSpaces(s, pos);
    if start == |s| then (None, |s|)
    else
      var end := StrChrFrom(s, ' ', start);
      (Some(s[start..end]), end)
  }

  lemma WordThenSpace(before: string, word: string, after: string)
    requires word != "" && ' ' !in word && (after == "" || after[0] == ' ')
    ensures StrTok(before + word + after, |before|) == (Some(word), |before| + |word|)
  {
    var s := before + word + after;
    assert s[|before|] == word[0];
    assert forall j :: 0 <= j < |word| ==> s[|before| + j] == word[j];
    var end := StrChrFrom(s, ' ', |before|);
    assert after != "" ==> s[|before| + |word|] == ' ';
    assert end == |before| + |word|;
    assert s[|before|..end] == word;
  }

  lemma SpaceThenWord(before: string, word: string, after: string)
    requires word != "" && ' ' !in word && (after == "" || after[0] == ' ')
    ensures StrTok(before + " " + word + after, |before|) == (Some(word), |before| + 1 + |word|)
  {
    var s := before + " " + word + after;
    WordThenSpace(before + " ", word, after);
    assert s[|before|] == ' ';
  }

  // ---------------------------------------------------------------- numbers

  predicate IsDigit(c: char) { '0' <= c <= '9' }

  predicate IsSpace(c: char) {
    c == ' ' || c == '\t' || c == '\n' || c == '\r' || c == 0x0B as char || c == 0x0C as char
  }

  function DigitValue(c: char): int
    requires IsDigit(c)
  {
    c as int - '0' as int
  }

  function DigitChar(d: nat): (c: char)
    requires d < 10
    ensures IsDigit(c) && DigitValue(c) == d
  {
    (d + '0' as int) as char
  }

  // The digits at `pos`, appended to the value so far.
  function ReadDigits(s: string, pos: nat, value: int): int
    requires pos <= |s|
    decreases |s| - pos
  {
    if pos == |s| || !IsDigit(s[pos]) then value
    else ReadDigits(s, pos + 1, 10 * value + DigitValue(s[pos]))
  }

  function SkipWhite(s: string, pos: nat): (k: nat)
    requires pos <= |s|
    ensures k <= |s|
    decreases |s| - pos
  {
    if pos == |s| || !IsSpace(s[pos]) then pos else SkipWhite(s, pos + 1)
  }

  // atoi, for values that fit an int.
  function Atoi(s: string): int {
    var i := SkipWhite(s, 0);
    if i < |s| && s[i] == '-' then -ReadDigits(s, i + 1, 0)
    else if i < |s| && s[i] == '+' then ReadDigits(s, i + 1, 0)
    else ReadDigits(s, i, 0)
  }

  // %d for a number that is not negative.
  function Decimal(n: nat): (s: string)
    ensures s != "" && forall i :: 0 <= i < |s| ==> IsDigit(s[i])
  {
    if n < 10 then [DigitChar(n)] else Decimal(n / 10) + [DigitChar(n % 10)]
  }

  // The digits stand with the highest first.
  lemma DecimalDigits()
    ensures Decimal(65535) == "65535" && Decimal(80) == "80" && Decimal(0) == "0"
  {
    assert Decimal(6) == "6";
    assert Decimal(65) == "65";
    assert Decimal(655) == "655";
    assert Decimal(6553) == "6553";
    assert Decimal(8) == "8";
  }

  // Reading Decimal(n) where it stands leaves the value n and the position behind it.
  lemma {:induction false} ReadDecimalAt(s: string, pos: nat, n: nat)
    requires MatchAt(s, pos, Decimal(n))
    ensures ReadDigits(s, pos, 0) == ReadDigits(s, pos + |Decimal(n)|, n)
    decreases n
  {
    var digits := Decimal(n);
    var last := pos + |digits| - 1;
    assert s[pos + (|digits| - 1)] == digits[|digits| - 1] == DigitChar(n % 10);
    if n >= 10 {
      var high := Decimal(n / 10);
      forall i | 0 <= i < |high|
        ensures s[pos + i] == high[i]
      {
        assert s[pos + i] == digits[i];
      }
      ReadDecimalAt(s, pos, n / 10);
    }
    assert ReadDigits(s, pos, 0) == ReadDigits(s, last, n / 10);
  }

  // Printing and reading a number are inverse, whatever non-digit follows and with any white
  // space and sign in front; text that starts with no number reads as 0.
  lemma AtoiDecimal(n: nat, after: string)
    requires after == "" || !IsDigit(after[0])
    ensures Atoi(Decimal(n) + after) == n
  {
    var s, digits := Decimal(n) + after, Decimal(n);
    assert s[0] == digits[0] && IsDigit(s[0]);
    ReadDecimalAt(s, 0, n);
    assert after != "" ==> s[|digits|] == after[0];
  }

  lemma AtoiSigned(sign: char, n: nat, after: string)
    requires after == "" || !IsDigit(after[0])
    requires sign == '-' || sign == '+'
    ensures Atoi([sign] + (Decimal(n) + after)) == if sign == '-' then 0 - n else n
  {
    var s, digits := [sign] + (Decimal(n) + after), Decimal(n);
    assert s[0] == sign;
    assert forall i :: 0 <= i < |digits| ==> s[1 + i] == digits[i];
    ReadDecimalAt(s, 1, n);
    assert after != "" ==> s[1 + |digits|] == after[0];
  }

  // White space in front makes no difference.
  lemma AtoiWhite(c: char, s: string)
    requires c in " \t\n\r" || c == 0x0B as char || c == 0x0C as char
    ensures Atoi([c] + s) == Atoi(s)
  {
    var t := [c] + s;
    assert t[0] == c;
    WhiteShifts(c, s, 0);
    var i := SkipWhite(s, 0);
    if i < |s| && (s[i] == '-' || s[i] == '+') {
      DigitsShift(c, s, i + 1, 0);
    } else {
      DigitsShift(c, s, i, 0);
    }
    assert i < |s| ==> t[i + 1] == s[i];
  }

  lemma {:induction false} WhiteShifts(c: char, s: string, pos: nat)
    requires pos <= |s|
    ensures SkipWhite([c] + s, pos + 1) == SkipWhite(s, pos) + 1
    decreases |s| - pos
  {
    if pos < |s| {
      assert ([c] + s)[pos + 1] == s[pos];
      if IsSpace(s[pos]) {
        WhiteShifts(c, s, pos + 1);
      }
    }
  }

  lemma {:induction false} DigitsShift(c: char, s: string, pos: nat, value: int)
    requires pos <= |s|
    ensures ReadDigits([c] + s, pos + 1, value) == ReadDigits(s, pos, value)
    decreases |s| - pos
  {
    if pos < |s| {
      assert ([c] + s)[pos + 1] == s[pos];
      if IsDigit(s[pos]) {
        DigitsShift(c, s, pos + 1, 10 * value + DigitValue(s[pos]));
      }
    }
  }

  lemma AtoiNothing(s: string)
    requires s == "" ||
      (!('0' <= s[0] <= '9') && s[0] !in "+- \t\n\r" && s[0] != 0x0B as char && s[0] != 0x0C as char)
    ensures Atoi(s) == 0
  {
  }
}
