/** The per-value content-type test of `checkContentType` (sheet.js:66-80): the three regular
    expressions become character-level predicates, each proved to accept exactly the strings
    its pattern matches. */
module Classifier {
  import opened Pattern

  /** The tags the `switch` of `checkContentType` tells apart. */
  datatype ContentType = Word | Number | Link | All

  /** The `switch (contentType)`: 'word', 'number' and 'link' have their own case; 'all' and
      every other string reach the shared `default`. */
  function ContentTypeOf(tag: string): (ct: ContentType)
    ensures ct == Word <==> tag == "word"
    ensures ct == Number <==> tag == "number"
    ensures ct == Link <==> tag == "link"
  {
    if tag == "word" then Word
    else if tag == "number" then Number
    else if tag == "link" then Link
    else All
  }

  /** Every character of `s` is in class `k`. */
  predicate Every(s: string, k: CharClass)
    decreases |s|
  {
    s == [] || (InClass(k, s[0]) && Every(s[1..], k))
  }

  predicate HasPrefix(v: string, p: string) {
    |p| <= |v| && v[..|p|] == p
  }

  /** `^[a-zA-Z]+$` */
  predicate IsWord(v: string) {
    |v| > 0 && Every(v, Letter)
  }

  /** `^\d+$` */
  predicate IsNumber(v: string) {
    |v| > 0 && Every(v, Digit)
  }

  /** What must follow the `://`: a first character that is neither whitespace nor one of
      `/ $ . ? #`, then any character but a line terminator, then non-whitespace only. */
  predicate LinkRest(u: string) {
    && |u| >= 2
    && InClass(HostStart, u[0])
    && InClass(NotLineTerminator, u[1])
    && Every(u[2..], NotSpace)
  }

  /** `^(https?|ftp):\/\/[^\s/$.?#].[^\s]*$` */
  predicate IsLink(v: string) {
    || (HasPrefix(v, "http://") && LinkRest(v[7..]))
    || (HasPrefix(v, "https://") && LinkRest(v[8..]))
    || (HasPrefix(v, "ftp://") && LinkRest(v[6..]))
  }

  /** The value passed to the `every` callback of checkContentType, after coercion to a string. */
  predicate Classify(v: string, ct: ContentType) {
    match ct
    case Word => IsWord(v)
    case Number => IsNumber(v)
    case Link => IsLink(v)
    case All => true
  }

  // ---------------------------------------------------------------------------
  // The predicates agree with the regular expressions they replace.

  lemma {:induction false} EveryAt(s: string, k: CharClass)
    ensures Every(s, k) <==> forall i :: 0 <= i < |s| ==> InClass(k, s[i])
    decreases |s|
  {
    if s != [] {
      EveryAt(s[1..], k);
      assert forall i :: 0 < i < |s| ==> s[i] == s[1..][i - 1];
    }
  }

  lemma WordIsPattern(v: string)
    ensures IsWord(v) <==> Matches(WordPattern, v)
  {
    EveryAt(v, Letter);
    PlusCls(Letter, v);
  }

  lemma NumberIsPattern(v: string)
    ensures IsNumber(v) <==> Matches(NumberPattern, v)
  {
    EveryAt(v, Digit);
    PlusCls(Digit, v);
  }

  lemma PrefixThen(v: string, p: string, q: string)
    ensures HasPrefix(v, p) && HasPrefix(v[|p|..], q)
            <==> HasPrefix(v, p + q) && |p| <= |v|
  {
    if HasPrefix(v, p + q) {
      assert v[..|p|] == (p + q)[..|p|] == p;
      assert v[|p|..][..|q|] == v[..|p + q|][|p|..] == q;
    }
    if HasPrefix(v, p) && HasPrefix(v[|p|..], q) {
      assert v[..|p + q|] == v[..|p|] + v[|p|..][..|q|];
    }
  }

  lemma AfterSchemeIsPattern(t: string)
    ensures Matches(AfterSchemePattern, t) <==> HasPrefix(t, "://") && LinkRest(t[3..])
  {
    var tail := Cat(Cls(HostStart), Cat(Cls(NotLineTerminator), Star(Cls(NotSpace))));
    CatLit("://", tail, t);
    if |t| >= 3 {
      var u := t[3..];
      CatCls(HostStart, Cat(Cls(NotLineTerminator), Star(Cls(NotSpace))), u);
      if |u| >= 1 {
        CatCls(NotLineTerminator, Star(Cls(NotSpace)), u[1..]);
        if |u| >= 2 {
          assert u[1..][1..] == u[2..];
          StarCls(NotSpace, u[2..]);
          EveryAt(u[2..], NotSpace);
        }
      }
    }
  }

  /** One alternative of the scheme group followed by `://…`. */
  lemma SchemeThenRest(v: string, scheme: string)
    ensures Matches(Cat(Lit(scheme), AfterSchemePattern), v)
            <==> HasPrefix(v, scheme + "://") && LinkRest(v[|scheme| + 3..])
  {
    CatLit(scheme, AfterSchemePattern, v);
    PrefixThen(v, scheme, "://");
    if |scheme| <= |v| {
      AfterSchemeIsPattern(v[|scheme|..]);
      if |scheme| + 3 <= |v| {
        assert v[|scheme|..][3..] == v[|scheme| + 3..];
      }
    }
  }

  /** `https?` followed by `://…` is `http://…` or `https://…`. */
  lemma OptionalS(v: string)
    ensures Matches(Cat(Cat(Lit("http"), Opt(Chr('s'))), AfterSchemePattern), v)
            <==> Matches(Cat(Lit("http"), AfterSchemePattern), v)
                 || Matches(Cat(Lit("https"), AfterSchemePattern), v)
  {
    var rest := AfterSchemePattern;
    CatAssoc(Lit("http"), Opt(Chr('s')), rest, v);
    CatLit("http", Cat(Opt(Chr('s')), rest), v);
    CatLit("http", rest, v);
    CatLit("https", rest, v);
    PrefixThen(v, "http", "s");
    if |v| >= 4 {
      var u := v[4..];
      CatOpt(Chr('s'), rest, u);
      CatChr('s', rest, u);
      if |v| >= 5 {
        assert u[1..] == v[5..];
        assert u[..1] == [u[0]];
      }
    }
  }

  lemma SchemeAlternatives(v: string)
    ensures Matches(LinkPattern, v)
            <==> || Matches(Cat(Lit("http"), AfterSchemePattern), v)
                 || Matches(Cat(Lit("https"), AfterSchemePattern), v)
                 || Matches(Cat(Lit("ftp"), AfterSchemePattern), v)
  {
    CatAlt(Cat(Lit("http"), Opt(Chr('s'))), Lit("ftp"), AfterSchemePattern, v);
    OptionalS(v);
  }

  lemma HttpLink(v: string)
    ensures Matches(Cat(Lit("http"), AfterSchemePattern), v) <==> HasPrefix(v, "http://") && LinkRest(v[7..])
  {
    assert "http" + "://" == "http://";
    SchemeThenRest(v, "http");
  }

  lemma HttpsLink(v: string)
    ensures Matches(Cat(Lit("https"), AfterSchemePattern), v) <==> HasPrefix(v, "https://") && LinkRest(v[8..])
  {
    assert "https" + "://" == "https://";
    SchemeThenRest(v, "https");
  }

  lemma FtpLink(v: string)
    ensures Matches(Cat(Lit("ftp"), AfterSchemePattern), v) <==> HasPrefix(v, "ftp://") && LinkRest(v[6..])
  {
    assert "ftp" + "://" == "ftp://";
    SchemeThenRest(v, "ftp");
  }

  lemma LinkIsPattern(v: string)
    ensures IsLink(v) <==> Matches(LinkPattern, v)
  {
    SchemeAlternatives(v);
    HttpLink(v);
    HttpsLink(v);
    FtpLink(v);
  }

  // ---------------------------------------------------------------------------
  // Properties of the classification.

  /** No value is in two of the three restricted classes. */
  lemma {:induction false} ClassesDisjoint(v: string)
    ensures !(IsWord(v) && IsNumber(v))
    ensures IsLink(v) ==> !IsWord(v) && !IsNumber(v)
  {
    EveryAt(v, Letter);
    EveryAt(v, Digit);
    if HasPrefix(v, "http://") || HasPrefix(v, "https://") {
      assert v[..4] == "http";
      assert v[0] == 'h';
    } else if HasPrefix(v, "ftp://") {
      assert v[3] == v[..6][3] == ':';
    }
    if IsLink(v) && HasPrefix(v, "http://") {
      assert v[4] == v[..7][4] == ':';
    }
    if IsLink(v) && HasPrefix(v, "https://") {
      assert v[5] == v[..8][5] == ':';
    }
  }

  /** An `http://` address whose host is ASCII letters and dots, starting with a letter, and
      at least two characters long, is a link. */
  lemma HttpLetterHostIsLink(host: string)
    requires |host| >= 2 && IsAsciiLetter(host[0])
    requires forall i :: 0 <= i < |host| ==> IsAsciiLetter(host[i]) || host[i] == '.'
    ensures IsLink("http://" + host)
  {
    var v := "http://" + host;
    assert v[..7] == "http://" && v[7..] == host;
    EveryAt(host[2..], NotSpace);
  }

  /** Only `All` accepts the empty string; every class accepts something. */
  lemma EmptyStringFailsRestrictedTypes(ct: ContentType)
    ensures Classify("", ct) <==> ct == All
  {
  }
}
