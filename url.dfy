/** The URL prompt of main.py: an answer is accepted when, with surrounding
    whitespace removed, it begins with `http://` or `https://` in any letter
    case (the pattern `^https?://` compiled with IGNORECASE), and the value
    handed on is the stripped answer. */
module UrlPrompt {
  import opened Builtins

  const InvalidUrlMessage := "Must start with http:// or https://"

  function AsciiLower(c: char): char {
    if 'A' <= c <= 'Z' then (c as int + 32) as char else c
  }

  /** Whether `c` matches the pattern letter `p` under IGNORECASE. For the
      characters of `^https?://` this is ASCII case folding plus the one
      extra equivalence Python's regular-expression engine applies to them:
      `s` also matches U+017F LATIN SMALL LETTER LONG S. */
  predicate FoldMatches(c: char, p: char) {
    AsciiLower(c) == AsciiLower(p) || (AsciiLower(p) == 's' && c == '\U{017F}')
  }

  /** `t` begins with `prefix`, character by character under IGNORECASE. */
  predicate StartsWithFold(t: string, prefix: string)
    ensures StartsWithFold(t, prefix) ==> |t| >= |prefix|
  {
    prefix == [] || (t != [] && FoldMatches(t[0], prefix[0]) && StartsWithFold(t[1..], prefix[1..]))
  }

  /** The test in the prompt's validator: `URL_RE.match(s.strip())`. */
  predicate UrlAccepted(s: string)
    ensures UrlAccepted(s) ==> |Strip(s)| >= 7
  {
    var t := Strip(s);
    StartsWithFold(t, "http://") || StartsWithFold(t, "https://")
  }

  datatype Validation = Valid | Invalid(message: string)

  /** The prompt's `validate` callback: `True` or the error message shown
      before re-prompting. */
  function Validate(s: string): (v: Validation)
    ensures v == Valid <==> UrlAccepted(s)
    ensures v != Valid ==> v == Invalid(InvalidUrlMessage)
  {
    if UrlAccepted(s) then Valid else Invalid(InvalidUrlMessage)
  }

  /** `ask_url()`: the prompt is answered with `attempts` in turn and keeps
      asking while the validator rejects; the first accepted answer is
      returned stripped. When the answers run out (the user cancels) the
      prompt yields None, and `ask_url`'s `.strip()` on None then fails;
      that is the `None` result here. */
  function AskUrl(attempts: seq<string>): (r: Option<string>)
    ensures r.Some? ==> |attempts| > 0 && Strip(r.value) == r.value
  {
    if attempts == [] then None
    else if Validate(attempts[0]) == Valid then
      StripIdempotent(attempts[0]);
      Some(Strip(attempts[0]))
    else AskUrl(attempts[1..])
  }

  /** The prompt gives no URL exactly when every answer is rejected. */
  lemma AskUrlNone(attempts: seq<string>)
    ensures AskUrl(attempts).None? <==> forall k :: 0 <= k < |attempts| ==> !UrlAccepted(attempts[k])
  {
    if AskUrl(attempts).None? {
      NoUrlAllRejected(attempts);
    } else {
      AskUrlFirstAccepted(attempts);
    }
  }

  lemma {:induction false} NoUrlAllRejected(attempts: seq<string>)
    requires AskUrl(attempts).None?
    ensures forall k :: 0 <= k < |attempts| ==> !UrlAccepted(attempts[k])
  {
    if attempts != [] {
      var rest := attempts[1..];
      NoUrlAllRejected(rest);
      forall j | 0 <= j < |attempts| ensures !UrlAccepted(attempts[j]) {
        if j > 0 { assert attempts[j] == rest[j - 1]; }
      }
    }
  }

  /** Otherwise the prompt gives the stripped form of the first accepted
      answer. */
  lemma {:induction false} AskUrlFirstAccepted(attempts: seq<string>)
    ensures AskUrl(attempts).Some? ==>
      exists k :: 0 <= k < |attempts| && FirstAccepted(attempts, k) && AskUrl(attempts).value == Strip(attempts[k])
  {
    if attempts != [] {
      if UrlAccepted(attempts[0]) {
        assert FirstAccepted(attempts, 0);
      } else {
        var rest := attempts[1..];
        AskUrlFirstAccepted(rest);
        if AskUrl(rest).Some? {
          var k :| 0 <= k < |rest| && FirstAccepted(rest, k) && AskUrl(rest).value == Strip(rest[k]);
          forall j | 0 <= j < k + 1 ensures !UrlAccepted(attempts[j]) {
            if j > 0 { assert attempts[j] == rest[j - 1]; }
          }
          assert attempts[k + 1] == rest[k];
          assert FirstAccepted(attempts, k + 1);
        }
      }
    }
  }

  /** `attempts[k]` is accepted and every earlier attempt was rejected. */
  predicate FirstAccepted(attempts: seq<string>, k: int)
    requires 0 <= k < |attempts|
  {
    UrlAccepted(attempts[k]) && forall j :: 0 <= j < k ==> !UrlAccepted(attempts[j])
  }

  /** The URL that the prompt hands on passes the same check again, and it
      has no surrounding whitespace left. */
  lemma AskUrlResultAccepted(attempts: seq<string>)
    requires AskUrl(attempts).Some?
    ensures UrlAccepted(AskUrl(attempts).value)
    ensures Strip(AskUrl(attempts).value) == AskUrl(attempts).value
  {
    AskUrlFirstAccepted(attempts);
    var k :| 0 <= k < |attempts| && FirstAccepted(attempts, k) && AskUrl(attempts).value == Strip(attempts[k]);
    StripIdempotent(attempts[k]);
  }

  // ------------------------------------------------ the regular expression

  /** The atoms of the pattern `^https?://`: a literal character, or a
      literal character made optional by `?` (greedy: tried first). */
  datatype Atom = Char(c: char) | Optional(c: char)

  const UrlPattern: seq<Atom> :=
    [Char('h'), Char('t'), Char('t'), Char('p'), Optional('s'), Char(':'), Char('/'), Char('/')]

  /** Whether `pat` matches some prefix of `t` (`re.match` anchors at the
      start), with backtracking over the optional atoms. */
  predicate MatchesPrefix(pat: seq<Atom>, t: string)
    decreases |pat|
  {
    if pat == [] then true
    else match pat[0]
      case Char(c) => t != [] && FoldMatches(t[0], c) && MatchesPrefix(pat[1..], t[1..])
      case Optional(c) =>
        (t != [] && FoldMatches(t[0], c) && MatchesPrefix(pat[1..], t[1..])) || MatchesPrefix(pat[1..], t)
  }

  function Literals(p: string): (pat: seq<Atom>)
    ensures |pat| == |p|
  {
    if p == [] then [] else [Char(p[0])] + Literals(p[1..])
  }

  lemma {:induction false} LiteralsMatch(p: string, rest: seq<Atom>, t: string)
    ensures MatchesPrefix(Literals(p) + rest, t) <==>
            StartsWithFold(t, p) && MatchesPrefix(rest, t[|p|..])
  {
    if p == [] {
      assert Literals(p) + rest == rest;
    } else {
      var pat := Literals(p) + rest;
      assert pat[0] == Char(p[0]) && pat[1..] == Literals(p[1..]) + rest;
      if t != [] {
        LiteralsMatch(p[1..], rest, t[1..]);
        if |t| >= |p| {
          assert t[1..][|p| - 1..] == t[|p|..];
        }
      }
    }
  }

  /** The explicit prefix test agrees with the regular expression it
      replaces, on every string. */
  lemma UrlPatternIsPrefixTest(t: string)
    ensures MatchesPrefix(UrlPattern, t) <==>
            StartsWithFold(t, "http://") || StartsWithFold(t, "https://")
  {
    var tail := Literals("://");
    var opt := [Optional('s')] + tail;
    assert tail == [Char(':'), Char('/'), Char('/')];
    assert UrlPattern == Literals("http") + opt;
    assert opt[0] == Optional('s') && opt[1..] == tail;
    assert tail + [] == tail;
    LiteralsMatch("http", opt, t);
    if |t| >= 4 {
      var u := t[4..];
      // the optional letter taken
      LiteralsMatch("://", [], u);
      // the optional letter skipped
      if u != [] {
        LiteralsMatch("://", [], u[1..]);
      }
      StartsWithFoldSplit(t, "http", "://");
      assert "http" + "://" == "http://";
      if |t| >= 5 {
        StartsWithFoldSplit(t, "https", "://");
        StartsWithFoldSplit(t, "http", "s");
        assert "https" + "://" == "https://";
        assert "http" + "s" == "https";
        assert t[5..] == u[1..];
      } else {
        assert !StartsWithFold(t, "https://");
      }
    } else {
      assert !StartsWithFold(t, "http://");
      assert !StartsWithFold(t, "https://");
    }
  }

  lemma {:induction false} StartsWithFoldSplit(t: string, a: string, b: string)
    ensures StartsWithFold(t, a + b) <==> StartsWithFold(t, a) && StartsWithFold(t[|a|..], b)
  {
    if a == [] {
      assert a + b == b;
    } else if t != [] {
      assert (a + b)[0] == a[0] && (a + b)[1..] == a[1..] + b;
      StartsWithFoldSplit(t[1..], a[1..], b);
      if |t| >= |a| {
        assert t[1..][|a| - 1..] == t[|a|..];
      }
    }
  }

  // ----------------------------------------------------------- examples

  /** An answer with nothing to strip is judged on its own first
      characters. */
  lemma AcceptedUnstripped(s: string)
    requires s != [] ==> !IsSpace(s[0]) && !IsSpace(s[|s| - 1])
    ensures UrlAccepted(s) <==> StartsWithFold(s, "http://") || StartsWithFold(s, "https://")
  {
    StripUnchanged(s);
  }

  /** `t` starts with the eight characters of `https://`, each matched under
      IGNORECASE. */
  lemma HttpsPrefix(t: string)
    requires |t| >= 8
    requires FoldMatches(t[0], 'h') && FoldMatches(t[1], 't') && FoldMatches(t[2], 't') && FoldMatches(t[3], 'p')
    requires FoldMatches(t[4], 's') && t[5] == ':' && t[6] == '/' && t[7] == '/'
    ensures StartsWithFold(t, "https://")
  {
    var p := "https://";
    assert p[1..] == "ttps://" && p[2..] == "tps://" && p[3..] == "ps://" && p[4..] == "s://";
    assert p[5..] == "://" && p[6..] == "//" && p[7..] == "/" && p[8..] == "";
    FoldStep(t[7..], "/");
    FoldStep(t[6..], "//");
    FoldStep(t[5..], "://");
    FoldStep(t[4..], "s://");
    FoldStep(t[3..], "ps://");
    FoldStep(t[2..], "tps://");
    FoldStep(t[1..], "ttps://");
    FoldStep(t, p);
  }

  /** One more matched character in front of a matched prefix. */
  lemma FoldStep(t: string, p: string)
    requires t != [] && p != [] && FoldMatches(t[0], p[0]) && StartsWithFold(t[1..], p[1..])
    ensures StartsWithFold(t, p)
  {
  }

  /** An upper-case scheme is accepted and handed on as typed. */
  lemma UpperCaseSchemeAccepted(host: string)
    requires host != [] ==> !IsSpace(host[|host| - 1])
    ensures UrlAccepted("HTTPS://" + host)
    ensures AskUrl(["HTTPS://" + host]) == Some("HTTPS://" + host)
  {
    var t := "HTTPS://" + host;
    assert t[0] == 'H' && t[1] == 'T' && t[2] == 'T' && t[3] == 'P' && t[4] == 'S';
    assert t[5] == ':' && t[6] == '/' && t[7] == '/';
    assert t[|t| - 1] == if host == [] then '/' else host[|host| - 1];
    StripUnchanged(t);
    HttpsPrefix(t);
    assert [t][0] == t;
  }

  lemma OtherSchemeRejected()
    ensures !UrlAccepted("ftp://x")
    ensures Validate("ftp://x") == Invalid("Must start with http:// or https://")
  {
    var t := "ftp://x";
    AcceptedUnstripped(t);
    assert !FoldMatches(t[0], "http://"[0]);
    assert !FoldMatches(t[0], "https://"[0]);
  }

  /** After a rejected answer, an answer wrapped in a space and a newline is
      handed on without them. */
  lemma SurroundingWhitespaceRemoved(host: string)
    requires host != [] ==> !IsSpace(host[|host| - 1])
    ensures AskUrl(["ftp://x", " " + ("http://" + host) + "\n"]) == Some("http://" + host)
  {
    var u := "http://" + host;
    var s := " " + u + "\n";
    OtherSchemeRejected();
    WrappedHttpAccepted(host);
    AskUrlAcceptsFirst(s, []);
    AskUrlSkipsRejected("ftp://x", [s]);
    assert [s] + [] == [s];
    assert ["ftp://x"] + [s] == ["ftp://x", s];
  }

  /** An `http://` answer wrapped in a space and a newline is accepted and
      strips to the bare URL. */
  lemma WrappedHttpAccepted(host: string)
    requires host != [] ==> !IsSpace(host[|host| - 1])
    ensures Strip(" " + ("http://" + host) + "\n") == "http://" + host
    ensures UrlAccepted(" " + ("http://" + host) + "\n")
  {
    var u := "http://" + host;
    assert u[0] == 'h' && u[1] == 't' && u[2] == 't' && u[3] == 'p';
    assert u[4] == ':' && u[5] == '/' && u[6] == '/';
    assert u[|u| - 1] == if host == [] then '/' else host[|host| - 1];
    WrappedStrip(u);
    HttpPrefix(u);
  }

  lemma AskUrlSkipsRejected(a: string, rest: seq<string>)
    requires !UrlAccepted(a)
    ensures AskUrl([a] + rest) == AskUrl(rest)
  {
    assert ([a] + rest)[0] == a && ([a] + rest)[1..] == rest;
  }

  lemma AskUrlAcceptsFirst(a: string, rest: seq<string>)
    requires UrlAccepted(a)
    ensures AskUrl([a] + rest) == Some(Strip(a))
  {
    assert ([a] + rest)[0] == a;
  }

  /** `t` starts with the seven characters of `http://`. */
  lemma HttpPrefix(t: string)
    requires |t| >= 7
    requires FoldMatches(t[0], 'h') && FoldMatches(t[1], 't') && FoldMatches(t[2], 't') && FoldMatches(t[3], 'p')
    requires t[4] == ':' && t[5] == '/' && t[6] == '/'
    ensures StartsWithFold(t, "http://")
  {
    var p := "http://";
    assert p[1..] == "ttp://" && p[2..] == "tp://" && p[3..] == "p://";
    assert p[4..] == "://" && p[5..] == "//" && p[6..] == "/" && p[7..] == "";
    FoldStep(t[6..], "/");
    FoldStep(t[5..], "//");
    FoldStep(t[4..], "://");
    FoldStep(t[3..], "p://");
    FoldStep(t[2..], "tp://");
    FoldStep(t[1..], "ttp://");
    FoldStep(t, p);
  }

  /** A space before and a newline after an answer that is itself free of
      surrounding whitespace are what `strip` removes. */
  lemma WrappedStrip(u: string)
    requires u != [] && !IsSpace(u[0]) && !IsSpace(u[|u| - 1])
    ensures Strip(" " + u + "\n") == u
  {
    var l := u + "\n";
    assert " " + u + "\n" == [' '] + l;
    LStripSpace(' ', l);
    assert l[0] == u[0];
    LStripNoSpace(l);
    RStripSpace(u, '\n');
    RStripNoSpace(u);
  }

  /** The long s in place of `s` is accepted, as Python's case-insensitive
      matching allows. */
  lemma LongSAccepted(host: string)
    requires host != [] ==> !IsSpace(host[|host| - 1])
    ensures UrlAccepted("http\U{017F}://" + host)
  {
    var t := "http\U{017F}://" + host;
    assert t[0] == 'h' && t[1] == 't' && t[2] == 't' && t[3] == 'p' && t[4] == '\U{017F}';
    assert t[5] == ':' && t[6] == '/' && t[7] == '/';
    assert t[|t| - 1] == if host == [] then '/' else host[|host| - 1];
    StripUnchanged(t);
    HttpsPrefix(t);
  }
}
