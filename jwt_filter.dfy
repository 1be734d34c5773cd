/**
 * The request filter that reads a bearer token from the Authorization
 * header, asks the token provider to validate it, and either lets the
 * request through (authenticated or not) or answers with an error.
 * The token provider's `validateToken` and `getAuthentication` are oracles
 * supplied by the caller.
 */
module JwtFilter {
  import opened Common

  const BearerPrefix: string := "Bearer "
  /** Servlet paths that bypass the filter. */
  const WhiteList: seq<string> := ["/login", "/user/public/reissue"]

  /** `shouldNotFilter`: the whitelist is compared for exact equality. */
  function ShouldNotFilter(servletPath: string): (skip: bool)
    ensures skip <==> servletPath == "/login" || servletPath == "/user/public/reissue"
  {
    servletPath in WhiteList
  }

  /** Java's `String.startsWith`. */
  predicate StartsWith(s: string, prefix: string) {
    |prefix| <= |s| && s[..|prefix|] == prefix
  }

  /** Every field between separators, empty ones included: `n` separators
      give `n + 1` fields. */
  function SplitFields(s: string, sep: char): (fields: seq<string>)
    ensures |fields| >= 1
    ensures forall i :: 0 <= i < |fields| ==> sep !in fields[i]
  {
    if s == [] then [[]]
    else
      var rest := SplitFields(s[1..], sep);
      if s[0] == sep then [[]] + rest else [[s[0]] + rest[0]] + rest[1..]
  }

  /** The fields joined back with the separator between them. */
  function Join(fields: seq<string>, sep: char): string
  {
    if |fields| == 0 then []
    else if |fields| == 1 then fields[0]
    else fields[0] + [sep] + Join(fields[1..], sep)
  }

  /** The trailing empty strings that `split` with limit 0 discards. */
  function DropTrailingEmpty(fields: seq<string>): (kept: seq<string>)
    ensures |kept| <= |fields| && kept == fields[..|kept|]
    ensures kept != [] ==> kept[|kept| - 1] != []
    ensures forall i :: |kept| <= i < |fields| ==> fields[i] == []
  {
    if fields == [] then []
    else if fields[|fields| - 1] == [] then DropTrailingEmpty(fields[..|fields| - 1])
    else fields
  }

  /** Java's `String.split` on a single literal character: the input itself
      when the separator does not occur, otherwise every field with the
      trailing empty ones removed. */
  function JavaSplit(s: string, sep: char): (r: seq<string>)
    ensures sep !in s ==> r == [s]
    ensures forall i :: 0 <= i < |r| ==> sep !in r[i]
    ensures sep in s && r != [] ==> r[|r| - 1] != []
  {
    if sep in s then DropTrailingEmpty(SplitFields(s, sep)) else [s]
  }

  /** A character that Java's `String.trim` strips: any code point up to U+0020. */
  predicate IsTrimmable(c: char) {
    c <= ' '
  }

  function LeadingTrimmable(s: string): (n: nat)
    ensures n <= |s|
    ensures forall i :: 0 <= i < n ==> IsTrimmable(s[i])
    ensures n < |s| ==> !IsTrimmable(s[n])
  {
    if s != [] && IsTrimmable(s[0]) then 1 + LeadingTrimmable(s[1..]) else 0
  }

  function TrailingTrimmable(s: string): (n: nat)
    ensures n <= |s|
    ensures forall i :: |s| - n <= i < |s| ==> IsTrimmable(s[i])
    ensures n < |s| ==> !IsTrimmable(s[|s| - n - 1])
  {
    if s != [] && IsTrimmable(s[|s| - 1]) then 1 + TrailingTrimmable(s[..|s| - 1]) else 0
  }

  /** Java's `String.trim`: the longest middle slice that neither starts nor
      ends with a character up to U+0020. */
  function JavaTrim(s: string): (r: string)
    ensures r != [] ==> !IsTrimmable(r[0]) && !IsTrimmable(r[|r| - 1])
    ensures forall c :: c in r ==> c in s
  {
    var rest := s[LeadingTrimmable(s)..];
    rest[..|rest| - TrailingTrimmable(rest)]
  }

  predicate AllTrimmable(s: string) {
    forall i :: 0 <= i < |s| ==> IsTrimmable(s[i])
  }

  lemma TrimmablePrefix(s: string, n: nat)
    requires n <= |s|
    requires forall i :: 0 <= i < n ==> IsTrimmable(s[i])
    ensures AllTrimmable(s[..n])
  {
    forall i | 0 <= i < n ensures IsTrimmable(s[..n][i]) {
      assert s[..n][i] == s[i];
    }
  }

  lemma TrimmableSuffix(s: string, n: nat)
    requires n <= |s|
    requires forall i :: |s| - n <= i < |s| ==> IsTrimmable(s[i])
    ensures AllTrimmable(s[|s| - n..])
  {
    var b := |s| - n;
    forall i | 0 <= i < n ensures IsTrimmable(s[b..][i]) {
      assert s[b..][i] == s[b + i];
    }
  }

  /** `trim` only removes characters up to U+0020 at both ends: the input is
      the trimmed text with such characters before and after it. */
  lemma JavaTrimDecomposes(s: string) returns (head: string, tail: string)
    ensures s == head + (JavaTrim(s) + tail)
    ensures AllTrimmable(head) && AllTrimmable(tail)
  {
    var n := LeadingTrimmable(s);
    var t := s[n..];
    var m := TrailingTrimmable(t);
    var b := |t| - m;
    head, tail := s[..n], t[b..];
    TrimmablePrefix(s, n);
    TrimmableSuffix(t, m);
    SplitAt(s, n);
    SplitAt(t, b);
    assert JavaTrim(s) == t[..b];
  }

  /** What `getJwtFromRequest` produces: `null`, a token, or the
      `ArrayIndexOutOfBoundsException` of reading field `[1]` when `split`
      returned fewer than two fields. */
  datatype Extraction = NoToken | Token(jwt: string) | IndexOutOfBounds

  /** `getJwtFromRequest`, on the value of the Authorization header. */
  function GetJwtFromRequest(authorization: Option<string>): (r: Extraction)
    ensures authorization == None ==> r == NoToken
    ensures authorization.Some? && !StartsWith(authorization.value, BearerPrefix) ==> r == NoToken
  {
    match authorization
    case None => NoToken
    case Some(bearerToken) =>
      if StartsWith(bearerToken, BearerPrefix) then
        var parts := JavaSplit(bearerToken, ' ');
        if |parts| > 1 then Token(JavaTrim(parts[1])) else IndexOutOfBounds
      else NoToken
  }

  lemma {:induction false} SplitFieldsWithoutSeparator(s: string, sep: char)
    requires sep !in s
    ensures SplitFields(s, sep) == [s]
  {
    if s != [] {
      SplitFieldsWithoutSeparator(s[1..], sep);
      assert [s[0]] + s[1..] == s;
    }
  }

  lemma {:induction false} SplitFieldsAfterWord(word: string, sep: char, rest: string)
    requires sep !in word
    ensures SplitFields(word + [sep] + rest, sep) == [word] + SplitFields(rest, sep)
  {
    var s := word + [sep] + rest;
    if word == [] {
      assert s[1..] == rest;
    } else {
      assert s[1..] == word[1..] + [sep] + rest;
      SplitFieldsAfterWord(word[1..], sep, rest);
      assert [word[0]] + word[1..] == word;
    }
  }

  /** Splitting and joining again gives back the input. */
  lemma {:induction false} JoinSplitFields(s: string, sep: char)
    ensures Join(SplitFields(s, sep), sep) == s
  {
    if s != [] {
      JoinSplitFields(s[1..], sep);
      var rest := SplitFields(s[1..], sep);
      if s[0] == sep {
        assert s == [sep] + s[1..];
      } else if |rest| == 1 {
        assert s == [s[0]] + s[1..];
      } else {
        assert Join(rest, sep) == rest[0] + [sep] + Join(rest[1..], sep);
        var first := [s[0]] + rest[0];
        assert ([first] + rest[1..])[1..] == rest[1..];
        assert s == [s[0]] + s[1..];
      }
    }
  }

  predicate AllEmpty(fields: seq<string>) {
    forall i :: 0 <= i < |fields| ==> fields[i] == []
  }

  predicate OnlySeparators(s: string, sep: char) {
    forall i :: 0 <= i < |s| ==> s[i] == sep
  }

  /** All fields are empty exactly when the input consists of separators only. */
  lemma {:induction false} FieldsEmptyIffSeparatorsOnly(s: string, sep: char)
    ensures AllEmpty(SplitFields(s, sep)) <==> OnlySeparators(s, sep)
  {
    if s != [] {
      FieldsEmptyIffSeparatorsOnly(s[1..], sep);
      var rest := SplitFields(s[1..], sep);
      var fields := SplitFields(s, sep);
      if s[0] == sep {
        assert fields == [[]] + rest;
        assert AllEmpty(fields) <==> AllEmpty(rest) by {
          assert forall i :: 0 < i < |fields| ==> fields[i] == rest[i - 1];
          if AllEmpty(rest) {
            forall i | 0 <= i < |fields| ensures fields[i] == [] {
              if i > 0 { assert fields[i] == rest[i - 1]; }
            }
          }
          if AllEmpty(fields) {
            forall i | 0 <= i < |rest| ensures rest[i] == [] {
              assert fields[i + 1] == rest[i];
            }
          }
        }
        assert OnlySeparators(s, sep) <==> OnlySeparators(s[1..], sep) by {
          if OnlySeparators(s[1..], sep) {
            forall i | 0 <= i < |s| ensures s[i] == sep {
              if i > 0 { assert s[i] == s[1..][i - 1]; }
            }
          }
        }
      } else {
        assert fields[0] != [];
      }
    }
  }

  /** `split` keeps more than `k` fields exactly when some field from
      position `k` on is non-empty. */
  lemma DropTrailingEmptyLength(fields: seq<string>, k: nat)
    requires k < |fields|
    ensures |DropTrailingEmpty(fields)| > k <==> exists i :: k <= i < |fields| && fields[i] != []
  {
    var kept := DropTrailingEmpty(fields);
    if |kept| > k {
      assert fields[|kept| - 1] == kept[|kept| - 1];
    }
  }

  /** The header is a bearer header whose part after the prefix consists of
      spaces only (`"Bearer "` itself included). */
  predicate BlankBearer(header: string) {
    StartsWith(header, BearerPrefix) && OnlySeparators(header[|BearerPrefix|..], ' ')
  }

  lemma BearerFields(header: string)
    requires StartsWith(header, BearerPrefix)
    ensures SplitFields(header, ' ') == ["Bearer"] + SplitFields(header[|BearerPrefix|..], ' ')
    ensures JavaSplit(header, ' ') == DropTrailingEmpty(SplitFields(header, ' '))
  {
    assert header == "Bearer" + [' '] + header[|BearerPrefix|..];
    SplitFieldsAfterWord("Bearer", ' ', header[|BearerPrefix|..]);
    assert header[6] == ' ';
  }

  /** `split(" ")` keeps a second field of a bearer header exactly when
      something other than spaces follows the prefix. */
  lemma BearerFieldCount(header: string)
    requires StartsWith(header, BearerPrefix)
    ensures |JavaSplit(header, ' ')| > 1 <==> !BlankBearer(header)
  {
    var rest := header[|BearerPrefix|..];
    var tail := SplitFields(rest, ' ');
    BearerFields(header);
    var fields := SplitFields(header, ' ');
    DropTrailingEmptyLength(fields, 1);
    FieldsEmptyIffSeparatorsOnly(rest, ' ');
    assert (exists i :: 1 <= i < |fields| && fields[i] != []) <==> !AllEmpty(tail) by {
      assert forall i :: 1 <= i < |fields| ==> fields[i] == tail[i - 1];
      if !AllEmpty(tail) {
        var i :| 0 <= i < |tail| && tail[i] != [];
        assert fields[i + 1] != [];
      }
    }
  }

  /** Reading field `[1]` faults exactly on a bearer header with nothing but
      spaces after the prefix; the fault happens before the filter's `try`. */
  lemma IndexFaultIffBlankBearer(header: string)
    ensures GetJwtFromRequest(Some(header)) == IndexOutOfBounds <==> BlankBearer(header)
  {
    if StartsWith(header, BearerPrefix) {
      BearerFieldCount(header);
    }
  }

  /** A bearer header with something other than spaces after the prefix
      yields a token: the trimmed second space-separated field. */
  lemma NonBlankBearerYieldsToken(header: string)
    requires StartsWith(header, BearerPrefix) && !BlankBearer(header)
    ensures GetJwtFromRequest(Some(header)).Token?
    ensures |SplitFields(header, ' ')| > 1
    ensures GetJwtFromRequest(Some(header)).jwt == JavaTrim(SplitFields(header, ' ')[1])
  {
    IndexFaultIffBlankBearer(header);
    TokenIsSecondField(header);
  }

  /** No token is produced exactly when the header is missing or does not
      start with `"Bearer "`; a bearer header yields a token or the fault. */
  lemma NoTokenIffNotBearer(authorization: Option<string>)
    ensures GetJwtFromRequest(authorization) == NoToken <==>
              authorization == None || !StartsWith(authorization.value, BearerPrefix)
  {
    if authorization.Some? && StartsWith(authorization.value, BearerPrefix) {
      IndexFaultIffBlankBearer(authorization.value);
    }
  }

  /** A token is the trimmed second space-separated field of the header, and
      never contains a space. */
  lemma TokenIsSecondField(header: string)
    requires GetJwtFromRequest(Some(header)).Token?
    ensures |SplitFields(header, ' ')| > 1
    ensures GetJwtFromRequest(Some(header)).jwt == JavaTrim(SplitFields(header, ' ')[1])
    ensures ' ' !in GetJwtFromRequest(Some(header)).jwt
  {
    BearerFields(header);
    var fields := SplitFields(header, ' ');
    assert fields[1] == SplitFields(header[|BearerPrefix|..], ' ')[0];
  }

  /** `"Bearer " + t` with a non-empty `t` free of spaces yields `trim(t)`. */
  lemma BearerTokenExtracted(t: string)
    requires t != [] && ' ' !in t
    ensures GetJwtFromRequest(Some(BearerPrefix + t)) == Token(JavaTrim(t))
  {
    var header := BearerPrefix + t;
    assert header[..|BearerPrefix|] == BearerPrefix;
    assert header[|BearerPrefix|..] == t;
    BearerFields(header);
    SplitFieldsWithoutSeparator(t, ' ');
    assert SplitFields(header, ' ') == ["Bearer", t];
    assert ' ' in header by { assert header[6] == ' '; }
  }

  /** Spring Security's authentication object, as the token provider builds it. */
  datatype Authentication = Authentication(principal: string)

  /** The exceptions the filter catches. */
  datatype Thrown = CustomException | JwtException

  /** A call into the token provider: it returns a value or throws. */
  datatype Call<T> = Returns(value: T) | Throws(thrown: Thrown)

  datatype ErrorCode = AccessTokenExpired | InvalidJwtToken

  /** How `doFilterInternal` ends: the chain is invoked, an error response is
      sent instead, or an exception leaves the filter uncaught. */
  datatype FilterOutcome = ChainInvoked | ErrorResponse(code: ErrorCode) | Uncaught

  /** The error code each caught exception is answered with. */
  function ErrorCodeFor(e: Thrown): (code: ErrorCode)
    ensures code == AccessTokenExpired <==> e == CustomException
    ensures code == InvalidJwtToken <==> e == JwtException
  {
    match e
    case CustomException => AccessTokenExpired
    case JwtException => InvalidJwtToken
  }

  /** The security context of the current request. */
  class SecurityContext {
    var authentication: Option<Authentication>

    constructor ()
      ensures authentication == None
    {
      authentication := None;
    }
  }

  /** `doFilterInternal`. */
  method DoFilterInternal(context: SecurityContext, authorization: Option<string>,
                          validateToken: string -> Call<bool>,
                          getAuthentication: string -> Call<Authentication>)
    returns (outcome: FilterOutcome)
    modifies context
    ensures outcome == Uncaught <==> GetJwtFromRequest(authorization) == IndexOutOfBounds
    ensures outcome == Uncaught ==> context.authentication == old(context.authentication)
    ensures GetJwtFromRequest(authorization) == NoToken ==>
              outcome == ChainInvoked && context.authentication == old(context.authentication)
    ensures GetJwtFromRequest(authorization).Token? ==>
              var jwt := GetJwtFromRequest(authorization).jwt;
              match validateToken(jwt)
              case Throws(e) => outcome == ErrorResponse(ErrorCodeFor(e)) && context.authentication == None
              case Returns(false) => outcome == ChainInvoked && context.authentication == old(context.authentication)
              case Returns(true) =>
                match getAuthentication(jwt)
                case Throws(e) => outcome == ErrorResponse(ErrorCodeFor(e)) && context.authentication == None
                case Returns(auth) => outcome == ChainInvoked && context.authentication == Some(auth)
  {
    var extraction := GetJwtFromRequest(authorization);
    if extraction.IndexOutOfBounds? {
      return Uncaught;
    }
    if extraction.Token? {
      var jwt := extraction.jwt;
      var valid := validateToken(jwt);
      if valid.Throws? {
        context.authentication := None;
        return ErrorResponse(ErrorCodeFor(valid.thrown));
      }
      if valid.value {
        var auth := getAuthentication(jwt);
        if auth.Throws? {
          context.authentication := None;
          return ErrorResponse(ErrorCodeFor(auth.thrown));
        }
        context.authentication := Some(auth.value);
      }
    }
    outcome := ChainInvoked;
  }
}
