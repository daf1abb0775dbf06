/**
 * The string predicates of the registration form: JavaScript's `String.prototype.trim`,
 * the blank-field test `isEmpty`, and the two profile-link checks `isValidGithub` and
 * `isValidLinkedIn`, whose regular expressions are written out as prefix predicates.
 */
module Text {

  /** ECMAScript WhiteSpace: TAB, VT, FF, ZWNBSP and the space separators (category Zs). */
  predicate IsWhiteSpace(c: char) {
    c == '\t' || c == '\U{B}' || c == '\U{C}' || c == '\U{FEFF}' ||
    c == ' ' || c == '\U{A0}' || c == '\U{1680}' || ('\U{2000}' <= c <= '\U{200A}') ||
    c == '\U{202F}' || c == '\U{205F}' || c == '\U{3000}'
  }

  /** ECMAScript LineTerminator: the characters a regular-expression `.` does not match. */
  predicate IsLineTerminator(c: char) {
    c == '\n' || c == '\r' || c == '\U{2028}' || c == '\U{2029}'
  }

  /** The characters `trim()` strips from both ends. */
  predicate IsTrimmable(c: char) {
    IsWhiteSpace(c) || IsLineTerminator(c)
  }

  /** Every character of `s` at an index in [lo, hi) is trimmable. */
  predicate TrimmableBetween(s: string, lo: int, hi: int) {
    forall i :: lo <= i < hi && 0 <= i < |s| ==> IsTrimmable(s[i])
  }

  predicate AllTrimmable(s: string) {
    TrimmableBetween(s, 0, |s|)
  }

  /** The index of the first character from `from` on that trim() keeps, or |s|. */
  function FirstKept(s: string, from: nat): (k: nat)
    requires from <= |s|
    ensures from <= k <= |s|
    ensures TrimmableBetween(s, from, k)
    ensures k < |s| ==> !IsTrimmable(s[k])
    decreases |s| - from
  {
    if from == |s| || !IsTrimmable(s[from]) then from else FirstKept(s, from + 1)
  }

  /** One past the index of the last character before `to` that trim() keeps, or 0. */
  function LastKeptEnd(s: string, to: nat): (k: nat)
    requires to <= |s|
    ensures k <= to
    ensures TrimmableBetween(s, k, to)
    ensures 0 < k ==> !IsTrimmable(s[k - 1])
  {
    if to == 0 || !IsTrimmable(s[to - 1]) then to else LastKeptEnd(s, to - 1)
  }

  /** `r` sits at offset `a` of `s`, and everything of `s` around it is trimmable. */
  predicate TrimmedAt(s: string, a: int, r: string) {
    0 <= a && a + |r| <= |s| && s[a..a + |r|] == r &&
    TrimmableBetween(s, 0, a) && TrimmableBetween(s, a + |r|, |s|)
  }

  /** A result of trimming: empty, or starting and ending with a character trim() keeps. */
  predicate HasUntrimmableEnds(r: string) {
    r == [] || (!IsTrimmable(r[0]) && !IsTrimmable(r[|r| - 1]))
  }

  /** JavaScript `s.trim()`: drop the trimmable characters at both ends. */
  function Trim(s: string): string {
    var a := FirstKept(s, 0);
    var b := LastKeptEnd(s, |s|);
    if b <= a then [] else s[a..b]
  }

  /** What trim() keeps: a slice of `s` with only trimmable characters around it, which is
      empty or starts and ends with a character trim() keeps. */
  lemma {:induction false} TrimSpec(s: string)
    ensures exists a :: TrimmedAt(s, a, Trim(s))
    ensures HasUntrimmableEnds(Trim(s))
  {
    var a := FirstKept(s, 0);
    var b := LastKeptEnd(s, |s|);
    if b <= a {
      assert a == |s|;
      assert Trim(s) == [];
      assert TrimmedAt(s, 0, []);
    } else {
      assert Trim(s) == s[a..b];
      assert TrimmedAt(s, a, s[a..b]);
    }
  }

  /** Trimming is determined by what it keeps: the kept core of a string is unique. */
  lemma {:induction false} TrimmedAtUnique(s: string, a: int, r: string, a': int, r': string)
    requires TrimmedAt(s, a, r) && HasUntrimmableEnds(r)
    requires TrimmedAt(s, a', r') && HasUntrimmableEnds(r')
    ensures r == r'
  {
    if r != [] && r' != [] {
      assert s[a] == r[0] && s[a'] == r'[0];
      assert a == a';
      assert s[a + |r| - 1] == r[|r| - 1] && s[a' + |r'| - 1] == r'[|r'| - 1];
    }
  }

  /** A string that already begins and ends with kept characters is its own trim. */
  lemma {:induction false} TrimLeavesUntrimmableEnds(s: string)
    requires HasUntrimmableEnds(s)
    ensures Trim(s) == s
  {
    assert s[0..|s|] == s;
    assert TrimmedAt(s, 0, s);
    TrimSpec(s);
    var a :| TrimmedAt(s, a, Trim(s));
    TrimmedAtUnique(s, 0, s, a, Trim(s));
  }

  /** Trimming twice is trimming once. */
  lemma {:induction false} TrimIdempotent(s: string)
    ensures Trim(Trim(s)) == Trim(s)
  {
    TrimSpec(s);
    TrimLeavesUntrimmableEnds(Trim(s));
  }

  /** Whitespace and line breaks around a string do not change what trim() keeps. */
  lemma {:induction false} TrimIgnoresPadding(p: string, s: string, q: string)
    requires AllTrimmable(p) && AllTrimmable(q)
    ensures Trim(p + s + q) == Trim(s)
  {
    var t := p + s + q;
    var r := Trim(s);
    TrimSpec(s);
    var a :| TrimmedAt(s, a, r);
    var a2 := |p| + a;
    assert t[a2..a2 + |r|] == s[a..a + |r|];
    assert TrimmedAt(t, a2, r) by {
      forall i | 0 <= i < a2 ensures IsTrimmable(t[i]) {
        if i >= |p| { assert t[i] == s[i - |p|]; }
      }
      forall i | a2 + |r| <= i < |t| ensures IsTrimmable(t[i]) {
        if i < |p| + |s| { assert t[i] == s[i - |p|]; } else { assert t[i] == q[i - |p| - |s|]; }
      }
    }
    TrimSpec(t);
    var b :| TrimmedAt(t, b, Trim(t));
    TrimmedAtUnique(t, a2, r, b, Trim(t));
  }

  /** JavaScript `!v || v.trim() === ""`. */
  predicate IsEmpty(v: string) {
    v == [] || Trim(v) == []
  }

  /** A field is blank exactly when it holds nothing but whitespace and line breaks. */
  lemma {:induction false} IsEmptyIffAllTrimmable(v: string)
    ensures IsEmpty(v) <==> AllTrimmable(v)
  {
    TrimSpec(v);
    var a :| TrimmedAt(v, a, Trim(v));
  }

  /** ASCII lower-casing: the canonical form a case-insensitive, non-Unicode regular
      expression compares an ASCII pattern letter against. */
  function LowerAscii(c: char): char {
    if 'A' <= c <= 'Z' then (c as int + 32) as char else c
  }

  /** `v` starts with the lower-case pattern `p`, ignoring the case of ASCII letters. */
  predicate StartsWithIgnoreCase(v: string, p: string) {
    |p| <= |v| && forall i :: 0 <= i < |p| ==> LowerAscii(v[i]) == p[i]
  }

  /** `v` starts with `p` (ignoring case) and at least one more character that is not a
      line break follows it: the `p.+` part of the pattern. */
  predicate PrefixThenText(v: string, p: string) {
    StartsWithIgnoreCase(v, p) && |p| < |v| && !IsLineTerminator(v[|p|])
  }

  /** The anchored pattern `^https?:\/\/(www\.)?<host>.+`, flag `i`, against `v`. */
  predicate MatchesProfileUrl(v: string, host: string) {
    PrefixThenText(v, "http://" + host) || PrefixThenText(v, "https://" + host) ||
    PrefixThenText(v, "http://www." + host) || PrefixThenText(v, "https://www." + host)
  }

  const GithubHost := "github.com/"
  const LinkedInHost := "linkedin.com/"

  /** `isValidGithub`: the trimmed link matches `^https?:\/\/(www\.)?github\.com\/.+`, case-insensitively. */
  predicate IsValidGithub(url: string) {
    MatchesProfileUrl(Trim(url), GithubHost)
  }

  /** `isValidLinkedIn`: the trimmed link matches `^https?:\/\/(www\.)?linkedin\.com\/.+`, case-insensitively. */
  predicate IsValidLinkedIn(url: string) {
    MatchesProfileUrl(Trim(url), LinkedInHost)
  }

  /** A blank link is never a valid profile link, so the blank-field rule is the stronger one. */
  lemma {:induction false} BlankLinkIsInvalid(url: string)
    requires IsEmpty(url)
    ensures !IsValidGithub(url) && !IsValidLinkedIn(url)
  {
    IsEmptyIffAllTrimmable(url);
    assert Trim(url) == [] by {
      if url == [] {
        TrimSpec(url);
      }
    }
  }

  /** Leading and trailing blanks around a link do not affect either check. */
  lemma {:induction false} ProfileChecksIgnorePadding(p: string, url: string, q: string)
    requires AllTrimmable(p) && AllTrimmable(q)
    ensures IsValidGithub(p + url + q) == IsValidGithub(url)
    ensures IsValidLinkedIn(p + url + q) == IsValidLinkedIn(url)
  {
    TrimIgnoresPadding(p, url, q);
  }

  /** One of the four accepted prefixes of `^https?:\/\/(www\.)?<host>`. */
  predicate IsProfilePrefix(p: string, host: string) {
    p == "http://" + host || p == "https://" + host ||
    p == "http://www." + host || p == "https://www." + host
  }

  /** A link with nothing to trim that continues one of the prefixes passes the check. */
  lemma {:induction false} UntrimmedProfileUrlMatches(v: string, p: string, host: string)
    requires HasUntrimmableEnds(v) && IsProfilePrefix(p, host) && PrefixThenText(v, p)
    ensures MatchesProfileUrl(Trim(v), host)
  {
    TrimLeavesUntrimmableEnds(v);
  }

  /** An `https` GitHub profile link is accepted, for any user part that does not start
      with a line break and ends with a character trim() keeps. */
  lemma {:induction false} GithubAcceptsHttpsLink(user: string)
    requires user != [] && !IsLineTerminator(user[0]) && !IsTrimmable(user[|user| - 1])
    ensures IsValidGithub("https://github.com/" + user)
  {
    UntrimmedProfileUrlMatches("https://github.com/" + user, "https://" + GithubHost, GithubHost);
  }

  /** The `http` scheme with the optional `www.` is accepted as well. */
  lemma {:induction false} GithubAcceptsHttpWwwLink(user: string)
    requires user != [] && !IsLineTerminator(user[0]) && !IsTrimmable(user[|user| - 1])
    ensures IsValidGithub("http://www.github.com/" + user)
  {
    UntrimmedProfileUrlMatches("http://www.github.com/" + user, "http://www." + GithubHost, GithubHost);
  }

  /** The fixed part of the link may be written in any letter case. */
  lemma {:induction false} GithubIgnoresLetterCase(user: string)
    requires user != [] && !IsLineTerminator(user[0]) && !IsTrimmable(user[|user| - 1])
    ensures IsValidGithub("HTTPS://GitHub.com/" + user)
  {
    UntrimmedProfileUrlMatches("HTTPS://GitHub.com/" + user, "https://" + GithubHost, GithubHost);
  }

  /** Blanks and line breaks around an accepted link keep it accepted. */
  lemma {:induction false} GithubAcceptsPaddedLink(p: string, user: string, q: string)
    requires AllTrimmable(p) && AllTrimmable(q)
    requires user != [] && !IsLineTerminator(user[0]) && !IsTrimmable(user[|user| - 1])
    ensures IsValidGithub(p + ("https://github.com/" + user) + q)
  {
    GithubAcceptsHttpsLink(user);
    ProfileChecksIgnorePadding(p, "https://github.com/" + user, q);
  }

  /** A LinkedIn profile link, with `www.` and in any letter case, is accepted. */
  lemma {:induction false} LinkedInAcceptsProfileLink(user: string)
    requires user != [] && !IsLineTerminator(user[0]) && !IsTrimmable(user[|user| - 1])
    ensures IsValidLinkedIn("https://www.LinkedIn.com/" + user)
  {
    UntrimmedProfileUrlMatches("https://www.LinkedIn.com/" + user, "https://www." + LinkedInHost, LinkedInHost);
  }

  /** The accepted prefixes are not prefixes of one another, as long as the host does not
      itself start with `w`: a shorter one differs from the start of a longer one. */
  lemma {:induction false} ProfilePrefixesNotNested(p: string, q: string, host: string)
    requires host != [] && host[0] != 'w'
    requires IsProfilePrefix(p, host) && IsProfilePrefix(q, host) && |q| < |p|
    ensures p[..|q|] != q
  {
    if q == "http://" + host {
      if p == "http://www." + host {
        assert p[7] == 'w' && q[7] == host[0];
      } else {
        assert p[4] == 's' && q[4] == ':';
      }
    } else if q == "https://" + host {
      if p == "https://www." + host {
        assert p[8] == 'w' && q[8] == host[0];
      } else {
        assert p[4] == ':' && q[4] == 's';
      }
    } else {
      assert p[4] == 's' && q[4] == ':';
    }
  }

  /** Matching a prefix means matching each of its parts. */
  lemma {:induction false} StartsWithParts(v: string, p: string, k: nat)
    requires k <= |p|
    ensures StartsWithIgnoreCase(v, p) ==>
      StartsWithIgnoreCase(v, p[..k]) && StartsWithIgnoreCase(v[k..], p[k..])
  {
    if StartsWithIgnoreCase(v, p) {
      forall i | 0 <= i < |p| - k ensures LowerAscii(v[k..][i]) == p[k..][i] {
        assert v[k..][i] == v[k + i];
      }
    }
  }

  /** A link that does not start with `http` matches none of the prefixes. */
  lemma {:induction false} MissingSchemeIsRefused(v: string, host: string)
    requires !StartsWithIgnoreCase(v, "http")
    ensures !MatchesProfileUrl(v, host)
  {
    forall q | IsProfilePrefix(q, host) ensures !StartsWithIgnoreCase(v, q) {
      StartsWithParts(v, q, 4);
      assert q[..4] == "http";
    }
  }

  /** After a scheme it matches, a link must go on with the rest of the prefix. */
  lemma {:induction false} SchemeThen(v: string, scheme: string, rest: string)
    ensures StartsWithIgnoreCase(v, scheme + rest) ==> StartsWithIgnoreCase(v[|scheme|..], rest)
  {
    StartsWithParts(v, scheme + rest, |scheme|);
    assert (scheme + rest)[|scheme|..] == rest;
  }

  /** A link that starts with one scheme matches no prefix written with the other: the
      two differ at their fifth character. */
  lemma {:induction false} OtherSchemeIsRefused(v: string, scheme: string, rest: string)
    requires scheme == "http://" || scheme == "https://"
    requires StartsWithIgnoreCase(v, scheme)
    ensures scheme == "http://" ==> !StartsWithIgnoreCase(v, "https://" + rest)
    ensures scheme == "https://" ==> !StartsWithIgnoreCase(v, "http://" + rest)
  {
    assert LowerAscii(v[4]) == scheme[4];
    assert ("https://" + rest)[4] == 's' && ("http://" + rest)[4] == ':';
  }

  /** A link whose scheme is followed by neither `<host>` nor `www.<host>` matches none of
      the prefixes. */
  lemma {:induction false} OtherHostIsRefused(v: string, scheme: string, host: string)
    requires scheme == "http://" || scheme == "https://"
    requires StartsWithIgnoreCase(v, scheme)
    requires !StartsWithIgnoreCase(v[|scheme|..], host)
    requires !StartsWithIgnoreCase(v[|scheme|..], "www." + host)
    ensures !MatchesProfileUrl(v, host)
  {
    SchemeThen(v, scheme, host);
    SchemeThen(v, scheme, "www." + host);
    assert scheme + "www." + host == scheme + ("www." + host);
    OtherSchemeIsRefused(v, scheme, host);
    OtherSchemeIsRefused(v, scheme, "www." + host);
    assert "http://www." + host == "http://" + ("www." + host);
    assert "https://www." + host == "https://" + ("www." + host);
  }

  /** A link that is one of the prefixes and nothing more matches none of them. */
  lemma {:induction false} BareHostIsRefused(v: string, p: string, host: string)
    requires host != [] && host[0] != 'w'
    requires IsProfilePrefix(p, host) && StartsWithIgnoreCase(v, p) && |v| == |p|
    ensures !MatchesProfileUrl(v, host)
  {
    forall q | IsProfilePrefix(q, host) && |q| < |v| ensures !StartsWithIgnoreCase(v, q) {
      ProfilePrefixesNotNested(p, q, host);
      StartsWithParts(v, p, |q|);
    }
  }

  /** A link without `http://` or `https://` is refused. */
  lemma GithubRejectsMissingScheme()
    ensures !IsValidGithub("github.com/alice")
  {
    var v := "github.com/alice";
    TrimLeavesUntrimmableEnds(v);
    assert LowerAscii(v[0]) != "http"[0];
    MissingSchemeIsRefused(v, GithubHost);
  }

  /** The same for LinkedIn. */
  lemma LinkedInRejectsMissingScheme()
    ensures !IsValidLinkedIn("linkedin.com/alice")
  {
    var v := "linkedin.com/alice";
    TrimLeavesUntrimmableEnds(v);
    assert LowerAscii(v[0]) != "http"[0];
    MissingSchemeIsRefused(v, LinkedInHost);
  }

  /** A link to another host is refused. */
  lemma GithubRejectsOtherHost()
    ensures !IsValidGithub("https://gitlab.com/alice")
  {
    var v := "https://gitlab.com/alice";
    TrimLeavesUntrimmableEnds(v);
    assert LowerAscii(v[8..][3]) != GithubHost[3] && LowerAscii(v[8..][0]) != ("www." + GithubHost)[0];
    OtherHostIsRefused(v, "https://", GithubHost);
  }

  /** An `https` link whose host part starts with a letter other than the host's first
      letter and other than `w` is refused. */
  lemma {:induction false} HttpsLinkToOtherHostIsRefused(rest: string, host: string)
    requires rest != [] && host != [] && !IsTrimmable(rest[|rest| - 1])
    requires LowerAscii(rest[0]) != host[0] && LowerAscii(rest[0]) != 'w'
    ensures !MatchesProfileUrl(Trim("https://" + rest), host)
  {
    var v := "https://" + rest;
    TrimLeavesUntrimmableEnds(v);
    assert v[8..] == rest;
    assert LowerAscii(v[8..][0]) != ("www." + host)[0];
    OtherHostIsRefused(v, "https://", host);
  }

  /** The LinkedIn check refuses other hosts too, GitHub among them. */
  lemma LinkedInRejectsOtherHost()
    ensures !IsValidLinkedIn("https://" + "gitlab.com/alice")
    ensures !IsValidLinkedIn("https://" + "github.com/alice")
  {
    HttpsLinkToOtherHostIsRefused("gitlab.com/alice", LinkedInHost);
    HttpsLinkToOtherHostIsRefused("github.com/alice", LinkedInHost);
  }

  /** `s` has no upper-case ASCII letter, so ignoring case it reads as itself. */
  predicate NoUpperAscii(s: string) {
    forall i :: 0 <= i < |s| ==> !('A' <= s[i] <= 'Z')
  }

  lemma HostsAreLowerCase()
    ensures NoUpperAscii(GithubHost) && NoUpperAscii(LinkedInHost)
  {
  }

  /** A prefix alone, with nothing after the host, is refused. */
  lemma {:induction false} BareProfilePrefixIsRefused(p: string, host: string)
    requires host != [] && host[0] != 'w' && NoUpperAscii(host) && IsProfilePrefix(p, host)
    ensures !MatchesProfileUrl(p, host)
  {
    var scheme := p[..|p| - |host|];
    assert p == scheme + host;
    assert NoUpperAscii(scheme);
    assert StartsWithIgnoreCase(p, p) by {
      forall i | 0 <= i < |p| ensures LowerAscii(p[i]) == p[i] {
        if i >= |scheme| { assert p[i] == host[i - |scheme|]; }
      }
    }
    BareHostIsRefused(p, p, host);
  }

  /** A link with nothing after `github.com/` is refused. */
  lemma GithubRejectsBareHost()
    ensures !IsValidGithub("https://" + GithubHost)
  {
    var v := "https://" + GithubHost;
    TrimLeavesUntrimmableEnds(v);
    HostsAreLowerCase();
    BareProfilePrefixIsRefused(v, GithubHost);
  }

  /** A link with nothing after `linkedin.com/` is refused. */
  lemma LinkedInRejectsBareHost()
    ensures !IsValidLinkedIn("https://" + LinkedInHost)
  {
    var v := "https://" + LinkedInHost;
    TrimLeavesUntrimmableEnds(v);
    HostsAreLowerCase();
    BareProfilePrefixIsRefused(v, LinkedInHost);
  }
}
