/**
 * valid_url of urlshorten.py: the regular expression
 *   ^((https?|ftp)://[^\s/$.?#].[^\s]*)$
 * as Python's re.match applies it, written as a scanner over the characters
 * after the scheme, and next to it the regex read off piece by piece.
 */
module Validator {
  import opened Wrappers

  /** Python's \s on str patterns: the characters str.isspace accepts. */
  predicate IsSpace(c: char)
  {
    c == '\t' || c == '\n' || c == '\U{000B}' || c == '\U{000C}' || c == '\r' ||
    ('\U{001C}' <= c <= '\U{001F}') || c == ' ' || c == '\U{0085}' || c == '\U{00A0}' ||
    c == '\U{1680}' || ('\U{2000}' <= c <= '\U{200A}') || c == '\U{2028}' || c == '\U{2029}' ||
    c == '\U{202F}' || c == '\U{205F}' || c == '\U{3000}'
  }

  /** The class [^\s/$.?#]: the first character of the host. */
  predicate IsHostStart(c: char)
  {
    !IsSpace(c) && c != '/' && c != '$' && c != '.' && c != '?' && c != '#'
  }

  predicate StartsWith(s: string, p: string)
  {
    |p| <= |s| && s[..|p|] == p
  }

  /** `(https?|ftp)://` at the start of s: what follows it, if it is there. */
  function StripScheme(s: string): (r: Option<string>)
    ensures r.Some? ==> |r.value| < |s| && s[|s| - |r.value|..] == r.value
  {
    if StartsWith(s, "http://") then Some(s[7..])
    else if StartsWith(s, "https://") then Some(s[8..])
    else if StartsWith(s, "ftp://") then Some(s[6..])
    else None
  }

  /**
   * Where the scanner is in the part after `://`: before the host start,
   * before the `.`, inside `[^\s]*`, or after the one newline `$` lets
   * through at the very end.
   */
  datatype Phase = BeforeHost | BeforeAny | InRest | AfterNewline

  /** Whether the rest t of the input takes the scanner from phase p to the end of a match. */
  function Scan(p: Phase, t: string): (r: bool)
    decreases |t|
  {
    if t == [] then p == InRest || p == AfterNewline
    else
      var c := t[0];
      match p
      case BeforeHost => IsHostStart(c) && Scan(BeforeAny, t[1..])
      case BeforeAny => c != '\n' && Scan(InRest, t[1..])
      case InRest =>
        if !IsSpace(c) then Scan(InRest, t[1..])
        else c == '\n' && Scan(AfterNewline, t[1..])
      case AfterNewline => false
  }

  /** valid_url: a scheme, then a scan of the rest to the end of a match. */
  function ValidUrl(url: string): (r: bool)
    ensures r ==> StartsWith(url, "http://") || StartsWith(url, "https://") || StartsWith(url, "ftp://")
    ensures r ==> |url| >= 8
  {
    match StripScheme(url)
    case None => false
    case Some(rest) => ScanLength(rest); Scan(BeforeHost, rest)
  }

  /** A match needs the host start and one more character after the scheme. */
  lemma ScanLength(t: string)
    ensures Scan(BeforeHost, t) ==> |t| >= 2
  {
    if |t| == 1 {
      assert Scan(BeforeHost, t) == (IsHostStart(t[0]) && Scan(BeforeAny, t[1..]));
      assert t[1..] == [];
      assert !Scan(BeforeAny, []);
    }
  }

  // The regex, piece by piece.

  /** `[^\s/$.?#].[^\s]*` matching all of t. */
  predicate Body(t: string)
  {
    |t| >= 2 && IsHostStart(t[0]) && t[1] != '\n' && NoSpace(t[2..])
  }

  /** The body followed by `$`: the end, or one newline that ends the string. */
  predicate BodyThenEnd(t: string)
  {
    Body(t) || (|t| > 0 && t[|t| - 1] == '\n' && Body(t[..|t| - 1]))
  }

  /** The whole regex, each alternative of the scheme in turn. */
  predicate RegexMatch(s: string)
  {
    (StartsWith(s, "http://") && BodyThenEnd(s[7..])) ||
    (StartsWith(s, "https://") && BodyThenEnd(s[8..])) ||
    (StartsWith(s, "ftp://") && BodyThenEnd(s[6..]))
  }

  predicate NoSpace(t: string)
  {
    forall i | 0 <= i < |t| :: !IsSpace(t[i])
  }

  lemma NoSpaceCons(c: char, u: string)
    ensures NoSpace([c] + u) <==> !IsSpace(c) && NoSpace(u)
  {
    assert ([c] + u)[0] == c;
    assert forall i | 0 <= i < |u| :: ([c] + u)[i + 1] == u[i];
  }

  lemma {:induction false} ScanInRest(t: string)
    ensures Scan(InRest, t) <==> NoSpace(t) || (|t| > 0 && t[|t| - 1] == '\n' && NoSpace(t[..|t| - 1]))
  {
    if t != [] {
      var c, u := t[0], t[1..];
      assert t == [c] + u;
      NoSpaceCons(c, u);
      if |u| > 0 {
        assert t[..|t| - 1] == [c] + u[..|u| - 1];
        assert t[|t| - 1] == u[|u| - 1];
        NoSpaceCons(c, u[..|u| - 1]);
      } else {
        assert t[..|t| - 1] == [];
      }
      if !IsSpace(c) {
        ScanInRest(u);
      }
    }
  }

  /** After `://`, the scanner accepts exactly what the regex's remainder matches. */
  lemma ScanBody(t: string)
    ensures Scan(BeforeHost, t) <==> BodyThenEnd(t)
  {
    if |t| >= 2 {
      var r := t[2..];
      ScanInRest(r);
      assert Scan(BeforeHost, t) == (IsHostStart(t[0]) && t[1] != '\n' && Scan(InRest, r)) by {
        assert t[1..][0] == t[1] && t[1..][1..] == r;
      }
      if |r| > 0 {
        var t' := t[..|t| - 1];
        assert t'[2..] == r[..|r| - 1];
        assert t'[0] == t[0] && t'[1] == t[1];
      } else {
        assert t[..|t| - 1] == [t[0]];
      }
    } else if |t| == 1 {
      assert t[1..] == [];
      assert t[..0] == [];
    }
  }

  /** valid_url agrees with the regex read piece by piece, in both directions. */
  lemma ValidUrlMatchesRegex(url: string)
    ensures ValidUrl(url) <==> RegexMatch(url)
  {
    if StartsWith(url, "http://") {
      ScanBody(url[7..]);
      assert !StartsWith(url, "https://") by { assert url[4] == ':'; }
      assert !StartsWith(url, "ftp://") by { assert url[0] == 'h'; }
    } else if StartsWith(url, "https://") {
      ScanBody(url[8..]);
      assert !StartsWith(url, "ftp://") by { assert url[0] == 'h'; }
    } else if StartsWith(url, "ftp://") {
      ScanBody(url[6..]);
    }
  }

  /** valid_url accepts these, among them one with a space as the second host character. */
  lemma AcceptedPlain()
    ensures ValidUrl("http://x.io")
  {
  }

  lemma AcceptedSpaceAfterHost()
    ensures ValidUrl("http://a b")
  {
  }

  lemma AcceptedTrailingNewline()
    ensures ValidUrl("http://ab\n")
  {
  }

  lemma AcceptedFtp()
    ensures ValidUrl("ftp://h/p")
  {
    var u := "ftp://h/p";
    assert u[..7][0] == 'f' && u[..8][0] == 'f';
  }

  lemma AcceptedHttps()
    ensures ValidUrl("https://a.b")
  {
    var u := "https://a.b";
    assert !StartsWith(u, "http://") by { assert u[..7][4] == 's'; }
    assert u[..8] == "https://" && u[8..] == "a.b";
  }

  /** valid_url rejects these. */
  lemma RejectedShort()
    ensures !ValidUrl("") && !ValidUrl("https://") && !ValidUrl("http://x")
  {
  }

  lemma RejectedSpaceInRest()
    ensures !ValidUrl("http://ab c")
  {
  }

  lemma RejectedNewlineAsSecond()
    ensures !ValidUrl("http://a\n")
  {
  }

  lemma RejectedDotHost()
    ensures !ValidUrl("http://.x")
  {
  }

  /** Without one of the three schemes at the start, nothing is valid. */
  lemma RejectedNoScheme(s: string)
    requires !StartsWith(s, "http://") && !StartsWith(s, "https://") && !StartsWith(s, "ftp://")
    ensures !ValidUrl(s)
  {
  }

  lemma RejectedNotAUrl()
    ensures !ValidUrl("not a url")
  {
    var u := "not a url";
    assert u[..7][0] == 'n' && u[..8][0] == 'n' && u[..6][0] == 'n';
  }
}
