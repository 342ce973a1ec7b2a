/** The character classes and the fragment of JavaScript regular expressions that the
    three content-type patterns of sheet.js use, with a whole-string match semantics
    (every pattern there is anchored with `^` and `$` and has no flags). */
module Pattern {

  /** `[a-zA-Z]` */
  predicate IsAsciiLetter(c: char) {
    ('a' <= c <= 'z') || ('A' <= c <= 'Z')
  }

  /** `\d`: only the ASCII digits, as JavaScript has it without the `u` flag. */
  predicate IsAsciiDigit(c: char) {
    '0' <= c <= '9'
  }

  /** The LineTerminator set of ECMAScript: what `.` refuses when the `s` flag is absent. */
  predicate IsLineTerminator(c: char) {
    c == '\n' || c == '\r' || c == '\U{2028}' || c == '\U{2029}'
  }

  /** `\s`: ECMAScript WhiteSpace and LineTerminator characters (also what `trim` strips). */
  predicate IsWhitespace(c: char) {
    || IsLineTerminator(c)
    || c == '\t' || c == '\U{000B}' || c == '\U{000C}' || c == ' '
    || c == '\U{00A0}' || c == '\U{1680}' || ('\U{2000}' <= c <= '\U{200A}')
    || c == '\U{202F}' || c == '\U{205F}' || c == '\U{3000}' || c == '\U{FEFF}'
  }

  /** The bracket classes and escapes that occur in the content-type patterns. */
  datatype CharClass =
    | Letter             // [a-zA-Z]
    | Digit              // \d
    | NotSpace           // [^\s]
    | HostStart          // [^\s/$.?#]
    | NotLineTerminator  // .

  predicate InClass(k: CharClass, c: char) {
    match k
    case Letter => IsAsciiLetter(c)
    case Digit => IsAsciiDigit(c)
    case NotSpace => !IsWhitespace(c)
    case HostStart => !IsWhitespace(c) && c !in "/$.?#"
    case NotLineTerminator => !IsLineTerminator(c)
  }

  /** Regular expressions built from the operators the patterns use. */
  datatype Re =
    | Empty              // the empty string
    | Chr(c: char)       // a literal character
    | Cls(k: CharClass)  // one character of a class
    | Cat(a: Re, b: Re)  // a followed by b
    | Alt(a: Re, b: Re)  // a|b
    | Opt(a: Re)         // a?
    | Star(a: Re)        // a*
    | Plus(a: Re)        // a+

  function Size(r: Re): nat {
    match r
    case Empty => 1
    case Chr(_) => 1
    case Cls(_) => 1
    case Cat(a, b) => Size(a) + Size(b) + 1
    case Alt(a, b) => Size(a) + Size(b) + 1
    case Opt(a) => Size(a) + 1
    case Star(a) => Size(a) + 1
    case Plus(a) => Size(a) + 2
  }

  /** The whole of `s` is in the language of `r`. */
  ghost predicate Matches(r: Re, s: string)
    decreases Size(r), |s|
  {
    match r
    case Empty => s == []
    case Chr(c) => s == [c]
    case Cls(k) => |s| == 1 && InClass(k, s[0])
    case Cat(a, b) => exists i :: 0 <= i <= |s| && Matches(a, s[..i]) && Matches(b, s[i..])
    case Alt(a, b) => Matches(a, s) || Matches(b, s)
    case Opt(a) => s == [] || Matches(a, s)
    case Star(a) => s == [] || exists i :: 0 < i <= |s| && Matches(a, s[..i]) && Matches(Star(a), s[i..])
    case Plus(a) => exists i :: 0 <= i <= |s| && Matches(a, s[..i]) && Matches(Star(a), s[i..])
  }

  /** The pattern that matches exactly the string `w`. */
  function Lit(w: string): Re
    decreases |w|
  {
    if w == [] then Empty else Cat(Chr(w[0]), Lit(w[1..]))
  }

  /** `/^[a-zA-Z]+$/` */
  const WordPattern: Re := Plus(Cls(Letter))

  /** `/^\d+$/` */
  const NumberPattern: Re := Plus(Cls(Digit))

  /** `/^(https?|ftp):\/\/[^\s/$.?#].[^\s]*$/`, the extra `.` included. */
  const SchemePattern: Re := Alt(Cat(Lit("http"), Opt(Chr('s'))), Lit("ftp"))
  const AfterSchemePattern: Re :=
    Cat(Lit("://"), Cat(Cls(HostStart), Cat(Cls(NotLineTerminator), Star(Cls(NotSpace)))))
  const LinkPattern: Re := Cat(SchemePattern, AfterSchemePattern)

  // ---------------------------------------------------------------------------
  // Laws of concatenation, used to take the patterns apart one piece at a time.

  lemma CatEmpty(r: Re, s: string)
    ensures Matches(Cat(Empty, r), s) <==> Matches(r, s)
  {
    if Matches(r, s) {
      assert s[..0] == [] && s[0..] == s;
    }
  }

  lemma CatChr(c: char, r: Re, s: string)
    ensures Matches(Cat(Chr(c), r), s) <==> |s| > 0 && s[0] == c && Matches(r, s[1..])
  {
    if |s| > 0 && s[0] == c && Matches(r, s[1..]) {
      assert s[..1] == [c];
    }
  }

  lemma CatCls(k: CharClass, r: Re, s: string)
    ensures Matches(Cat(Cls(k), r), s) <==> |s| > 0 && InClass(k, s[0]) && Matches(r, s[1..])
  {
    if Matches(Cat(Cls(k), r), s) {
      var i :| 0 <= i <= |s| && Matches(Cls(k), s[..i]) && Matches(r, s[i..]);
      assert i == 1;
    }
    if |s| > 0 && InClass(k, s[0]) && Matches(r, s[1..]) {
      assert s[..1] == [s[0]];
      assert Matches(Cls(k), s[..1]);
    }
  }

  lemma CatIntro(a: Re, b: Re, s: string, i: nat)
    requires i <= |s| && Matches(a, s[..i]) && Matches(b, s[i..])
    ensures Matches(Cat(a, b), s)
  {
  }

  lemma CatSplit(a: Re, b: Re, s: string) returns (i: nat)
    requires Matches(Cat(a, b), s)
    ensures i <= |s| && Matches(a, s[..i]) && Matches(b, s[i..])
  {
    i :| 0 <= i <= |s| && Matches(a, s[..i]) && Matches(b, s[i..]);
  }

  lemma CatAssocLeft(a: Re, b: Re, c: Re, s: string)
    requires Matches(Cat(Cat(a, b), c), s)
    ensures Matches(Cat(a, Cat(b, c)), s)
  {
    var i := CatSplit(Cat(a, b), c, s);
    var t := s[..i];
    var j := CatSplit(a, b, t);
    assert t[..j] == s[..j];
    assert s[j..][..i - j] == t[j..];
    assert s[j..][i - j..] == s[i..];
    CatIntro(b, c, s[j..], i - j);
    CatIntro(a, Cat(b, c), s, j);
  }

  lemma CatAssocRight(a: Re, b: Re, c: Re, s: string)
    requires Matches(Cat(a, Cat(b, c)), s)
    ensures Matches(Cat(Cat(a, b), c), s)
  {
    var j := CatSplit(a, Cat(b, c), s);
    var u := s[j..];
    var k := CatSplit(b, c, u);
    var i := j + k;
    assert s[..i][..j] == s[..j];
    assert s[..i][j..] == u[..k];
    assert u[k..] == s[i..];
    CatIntro(a, b, s[..i], j);
    CatIntro(Cat(a, b), c, s, i);
  }

  lemma CatAssoc(a: Re, b: Re, c: Re, s: string)
    ensures Matches(Cat(Cat(a, b), c), s) <==> Matches(Cat(a, Cat(b, c)), s)
  {
    if Matches(Cat(Cat(a, b), c), s) {
      CatAssocLeft(a, b, c, s);
    }
    if Matches(Cat(a, Cat(b, c)), s) {
      CatAssocRight(a, b, c, s);
    }
  }

  lemma CatAlt(a: Re, b: Re, r: Re, s: string)
    ensures Matches(Cat(Alt(a, b), r), s) <==> Matches(Cat(a, r), s) || Matches(Cat(b, r), s)
  {
    if Matches(Cat(Alt(a, b), r), s) {
      var i :| 0 <= i <= |s| && Matches(Alt(a, b), s[..i]) && Matches(r, s[i..]);
      assert Matches(a, s[..i]) || Matches(b, s[..i]);
    }
    if Matches(Cat(a, r), s) {
      var i :| 0 <= i <= |s| && Matches(a, s[..i]) && Matches(r, s[i..]);
      assert Matches(Alt(a, b), s[..i]);
    }
    if Matches(Cat(b, r), s) {
      var i :| 0 <= i <= |s| && Matches(b, s[..i]) && Matches(r, s[i..]);
      assert Matches(Alt(a, b), s[..i]);
    }
  }

  lemma CatOpt(a: Re, r: Re, s: string)
    ensures Matches(Cat(Opt(a), r), s) <==> Matches(r, s) || Matches(Cat(a, r), s)
  {
    if Matches(Cat(Opt(a), r), s) {
      var i :| 0 <= i <= |s| && Matches(Opt(a), s[..i]) && Matches(r, s[i..]);
      if s[..i] == [] {
        assert i == 0 && s[i..] == s;
      }
    }
    if Matches(r, s) {
      assert s[..0] == [] && s[0..] == s;
      assert Matches(Opt(a), s[..0]);
    }
    if Matches(Cat(a, r), s) {
      var i :| 0 <= i <= |s| && Matches(a, s[..i]) && Matches(r, s[i..]);
      assert Matches(Opt(a), s[..i]);
    }
  }

  /** Concatenating a literal consumes exactly that literal as a prefix. */
  lemma {:induction false} CatLit(w: string, r: Re, s: string)
    ensures Matches(Cat(Lit(w), r), s) <==> |w| <= |s| && s[..|w|] == w && Matches(r, s[|w|..])
    decreases |w|
  {
    if w == [] {
      CatEmpty(r, s);
      assert s[..0] == [] && s[0..] == s;
    } else {
      CatAssoc(Chr(w[0]), Lit(w[1..]), r, s);
      CatChr(w[0], Cat(Lit(w[1..]), r), s);
      if |s| > 0 {
        CatLit(w[1..], r, s[1..]);
        if |w| <= |s| {
          assert s[1..][|w| - 1..] == s[|w|..];
          assert s[..|w|] == [s[0]] + s[1..][..|w| - 1];
          assert w == [w[0]] + w[1..];
        }
      }
    }
  }

  /** A starred character class matches exactly the strings made of that class. */
  lemma {:induction false} StarCls(k: CharClass, s: string)
    ensures Matches(Star(Cls(k)), s) <==> forall i :: 0 <= i < |s| ==> InClass(k, s[i])
    decreases |s|
  {
    if s != [] {
      StarCls(k, s[1..]);
      if Matches(Star(Cls(k)), s) {
        var i :| 0 < i <= |s| && Matches(Cls(k), s[..i]) && Matches(Star(Cls(k)), s[i..]);
        assert i == 1;
        forall j | 0 <= j < |s| ensures InClass(k, s[j]) {
          if j > 0 { assert s[j] == s[1..][j - 1]; }
        }
      }
      if forall i :: 0 <= i < |s| ==> InClass(k, s[i]) {
        assert forall i :: 0 <= i < |s[1..]| ==> InClass(k, s[1..][i]) by {
          forall i | 0 <= i < |s[1..]| ensures InClass(k, s[1..][i]) {
            assert s[1..][i] == s[i + 1];
          }
        }
        assert s[..1] == [s[0]];
        assert Matches(Cls(k), s[..1]);
      }
    }
  }

  /** `[k]+` matches exactly the non-empty strings made of that class. */
  lemma PlusCls(k: CharClass, s: string)
    ensures Matches(Plus(Cls(k)), s) <==> |s| > 0 && forall i :: 0 <= i < |s| ==> InClass(k, s[i])
  {
    if Matches(Plus(Cls(k)), s) {
      var i :| 0 <= i <= |s| && Matches(Cls(k), s[..i]) && Matches(Star(Cls(k)), s[i..]);
      assert i == 1;
      StarCls(k, s[1..]);
      forall j | 0 <= j < |s| ensures InClass(k, s[j]) {
        if j > 0 { assert s[j] == s[1..][j - 1]; }
      }
    }
    if |s| > 0 && forall i :: 0 <= i < |s| ==> InClass(k, s[i]) {
      StarCls(k, s);
      StarCls(k, s[1..]);
      assert forall i :: 0 <= i < |s[1..]| ==> InClass(k, s[1..][i]) by {
        forall i | 0 <= i < |s[1..]| ensures InClass(k, s[1..][i]) {
          assert s[1..][i] == s[i + 1];
        }
      }
      assert s[..1] == [s[0]];
      assert Matches(Cls(k), s[..1]);
    }
  }
}
