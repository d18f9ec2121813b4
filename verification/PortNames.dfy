/** The short name of a switch port, the same for the different names that a port goes by. */
module PortNames {
  import opened Strings

  function AfterLastSlash(p: string): (s: string) {
    if p == "" || p[|p| - 1] == '/' then "" else AfterLastSlash(p[..|p| - 1]) + [p[|p| - 1]]
  }

  function TrailingDigits(digit: char -> bool, p: string): (s: string) {
    if p == "" || !digit(p[|p| - 1]) then "" else TrailingDigits(digit, p[..|p| - 1]) + [p[|p| - 1]]
  }

  /** What follows the last slash, else the number at the end, else the whole name; digit is Python's \d. */
  function NormalizePort(ws: Spaces, digit: char -> bool, port: string): (name: string) {
    var p := Strip(ws, port);
    if '/' in p then AfterLastSlash(p)
    else if TrailingDigits(digit, p) != "" then TrailingDigits(digit, p)
    else p
  }

  ghost predicate AllDigits(digit: char -> bool, s: string) {
    forall i :: 0 <= i < |s| ==> digit(s[i])
  }

  /** The text ends in a digit. */
  ghost predicate EndsInDigit(digit: char -> bool, s: string) {
    s != "" && digit(s[|s| - 1])
  }

  lemma {:induction false} AfterLastSlashOf(a: string, s: string)
    requires '/' !in s
    ensures AfterLastSlash(a + "/" + s) == s
    decreases |s|
  {
    var p := a + "/" + s;
    if s == "" {
      assert p[|p| - 1] == '/';
    } else {
      var n := |s| - 1;
      assert p[..|p| - 1] == a + "/" + s[..n] && p[|p| - 1] == s[n];
      assert s[n] in s;
      AfterLastSlashOf(a, s[..n]);
    }
  }

  lemma {:induction false} TrailingDigitsOf(digit: char -> bool, a: string, s: string)
    requires AllDigits(digit, s) && !EndsInDigit(digit, a)
    ensures TrailingDigits(digit, a + s) == s
    decreases |s|
  {
    var p := a + s;
    if s == "" {
      assert p == a;
    } else {
      var n := |s| - 1;
      assert p[..|p| - 1] == a + s[..n] && p[|p| - 1] == s[n];
      TrailingDigitsOf(digit, a, s[..n]);
    }
  }

  /** Every text with a slash has a last one. */
  lemma {:induction false} LastSlash(p: string) returns (a: string, s: string)
    requires '/' in p
    ensures p == a + "/" + s && '/' !in s
  {
    var n := |p| - 1;
    if p[n] == '/' {
      a, s := p[..n], "";
    } else {
      assert p == p[..n] + [p[n]];
      a, s := LastSlash(p[..n]);
      s := s + [p[n]];
    }
  }

  /** Every text is something that does not end in a digit, followed by digits. */
  lemma {:induction false} LastDigits(digit: char -> bool, p: string) returns (a: string, s: string)
    ensures p == a + s && AllDigits(digit, s) && !EndsInDigit(digit, a)
  {
    if EndsInDigit(digit, p) {
      var n := |p| - 1;
      a, s := LastDigits(digit, p[..n]);
      assert p == p[..n] + [p[n]];
      s := s + [p[n]];
    } else {
      a, s := p, "";
    }
  }

  /** The name is what stands behind the last slash, or the number at the end, or everything. */
  ghost predicate IsName(digit: char -> bool, p: string, name: string) {
    if '/' in p then '/' !in name && exists a :: p == a + "/" + name
    else if EndsInDigit(digit, p) then
      name != "" && AllDigits(digit, name) && exists a :: p == a + name && !EndsInDigit(digit, a)
    else name == p
  }

  lemma NormalizedExactly(ws: Spaces, digit: char -> bool, port: string)
    ensures IsName(digit, Strip(ws, port), NormalizePort(ws, digit, port))
  {
    var p := Strip(ws, port);
    if '/' in p {
      var a, s := LastSlash(p);
      AfterLastSlashOf(a, s);
    } else {
      var a, s := LastDigits(digit, p);
      TrailingDigitsOf(digit, a, s);
      assert s == "" ==> a == p;
    }
  }

  /** Digits are neither white space nor slashes. */
  ghost predicate UsualDigits(ws: Spaces, digit: char -> bool) {
    !digit('/') && forall c :: digit(c) ==> !ws(c)
  }

  /** A trimmed text strips to itself. */
  lemma StripTrimmed(ws: Spaces, s: string)
    requires Trimmed(ws, s)
    ensures Strip(ws, s) == s
  {
    assert Blank(ws, "") && s == "" + s + "";
    StrippedOnce(ws, s, s);
  }

  lemma NameOfNumber(ws: Spaces, digit: char -> bool, words: string, number: string)
    requires UsualDigits(ws, digit) && number != "" && AllDigits(digit, number)
    requires '/' !in words && !EndsInDigit(digit, words) && (words != "" ==> !ws(words[0]))
    ensures NormalizePort(ws, digit, words + number) == number
  {
    var p := words + number;
    assert p[|p| - 1] == number[|number| - 1];
    assert words == "" ==> p[0] == number[0];
    StripTrimmed(ws, p);
    TrailingDigitsOf(digit, words, number);
  }

  lemma NameBehindPath(ws: Spaces, digit: char -> bool, path: string, number: string)
    requires UsualDigits(ws, digit) && number != "" && AllDigits(digit, number)
    requires (path != "" ==> !ws(path[0])) && !ws('/')
    ensures NormalizePort(ws, digit, path + "/" + number) == number
  {
    var p := path + "/" + number;
    assert p[|p| - 1] == number[|number| - 1] && p[|path|] == '/';
    StripTrimmed(ws, p);
    AfterLastSlashOf(path, number);
  }

  /** The number alone, the number behind words, and the number behind a path are names of one port. */
  lemma SamePort(ws: Spaces, digit: char -> bool, words: string, path: string, number: string)
    requires UsualDigits(ws, digit) && number != "" && AllDigits(digit, number)
    requires '/' !in words && !EndsInDigit(digit, words) && (words != "" ==> !ws(words[0]))
    requires (path != "" ==> !ws(path[0])) && !ws('/')
    ensures NormalizePort(ws, digit, number) == number
    ensures NormalizePort(ws, digit, words + number) == number
    ensures NormalizePort(ws, digit, path + "/" + number) == number
  {
    NameOfNumber(ws, digit, "", number);
    NameOfNumber(ws, digit, words, number);
    NameBehindPath(ws, digit, path, number);
    assert "" + number == number;
  }
}
