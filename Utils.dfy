/** The utility routines of lib/utils.js: request-parameter validation,
    boolean coercion, e-mail and web-URI checks, and random hex strings. */
module Utils {
  import opened Wrappers
  import opened Js

  // ===========================================================================
  // required(reqdata, params, any)
  //
  // `reqdata` is a plain object, modelled as a map from key to value; `params`
  // lists the names to check. The returned value is `undefined` (None) or an
  // Error, represented here by its message (Some(message)).

  /** The test applied to each name: its value is falsy, yet not the number 0. */
  predicate IsMissing(v: Value) {
    !Truthy(v) && !IsZero(v)
  }

  /** The names of `params` whose value in `reqdata` is missing, in the order of `params`. */
  function MissingNames(reqdata: map<string, Value>, params: seq<string>): (missing: seq<string>)
    ensures |missing| <= |params|
  {
    if params == [] then []
    else
      var last := params[|params| - 1];
      MissingNames(reqdata, params[..|params| - 1]) + (if IsMissing(Get(reqdata, last)) then [last] else [])
  }

  /** The positions in `params` of the names `MissingNames` keeps, in
      increasing order. */
  ghost function MissingPositions(reqdata: map<string, Value>, params: seq<string>): (pos: seq<nat>)
    ensures forall k :: 0 <= k < |pos| ==> pos[k] < |params|
    ensures forall k, l :: 0 <= k < l < |pos| ==> pos[k] < pos[l]
  {
    if params == [] then []
    else
      var n := |params| - 1;
      MissingPositions(reqdata, params[..n]) + (if IsMissing(Get(reqdata, params[n])) then [n] else [])
  }

  const MessagePrefix: string := "missing required params: "

  /** The separator of the names in the message: `|` in any-mode, `,` otherwise. */
  function Separator(any: bool): char {
    if any then '|' else ','
  }

  /** The value `required` returns, as a function of its inputs. */
  function RequiredOutcome(reqdata: map<string, Value>, params: seq<string>, any: bool): Option<string>
  {
    var missing := MissingNames(reqdata, params);
    if |missing| != 0 && (!any || |missing| == |params|) then
      Some(MessagePrefix + Join(missing, [Separator(any)]))
    else
      None
  }

  /** `required`: one pass over `params` collects the missing names, then the
      mode decides whether they make an error. */
  method Required(reqdata: map<string, Value>, params: seq<string>, any: bool) returns (err: Option<string>)
    ensures err == RequiredOutcome(reqdata, params, any)
  {
    var missing: seq<string> := [];
    var i := 0;
    while i < |params|
      invariant 0 <= i <= |params|
      invariant missing == MissingNames(reqdata, params[..i])
    {
      var entry := params[i];
      assert params[..i + 1][..i] == params[..i];
      if !Truthy(Get(reqdata, entry)) && !IsZero(Get(reqdata, entry)) {
        missing := missing + [entry];
      }
      i := i + 1;
    }
    assert params[..i] == params;
    err := None;
    if |missing| != 0 {
      if !any || |missing| == |params| {
        err := Some(MessagePrefix + Join(missing, [Separator(any)]));
      }
    }
  }

  /** A name is reported missing exactly when it is one of `params` and its
      value is missing. */
  lemma {:induction false} MissingNamesMembers(reqdata: map<string, Value>, params: seq<string>, p: string)
    ensures p in MissingNames(reqdata, params) <==> p in params && IsMissing(Get(reqdata, p))
    decreases |params|
  {
    if params != [] {
      var n := |params| - 1;
      MissingNamesMembers(reqdata, params[..n], p);
      assert params == params[..n] + [params[n]];
    }
  }

  /** `MissingNames` is the subsequence of `params` at the positions whose
      value is missing: the positions are increasing, pick out the names in
      order, and are exactly the positions of missing values. */
  lemma MissingNamesInOrder(reqdata: map<string, Value>, params: seq<string>)
    ensures var missing, pos := MissingNames(reqdata, params), MissingPositions(reqdata, params);
      && |pos| == |missing|
      && (forall k :: 0 <= k < |pos| ==> pos[k] < |params| && missing[k] == params[pos[k]])
      && (forall k, l :: 0 <= k < l < |pos| ==> pos[k] < pos[l])
      && (forall i :: 0 <= i < |params| ==> (i in pos <==> IsMissing(Get(reqdata, params[i]))))
  {
    MissingPositionsPick(reqdata, params);
    MissingPositionsExact(reqdata, params);
  }

  /** Position `k` of `MissingPositions` points at name `k` of `MissingNames`. */
  lemma {:induction false} MissingPositionsPick(reqdata: map<string, Value>, params: seq<string>)
    ensures var missing, pos := MissingNames(reqdata, params), MissingPositions(reqdata, params);
      && |pos| == |missing|
      && forall k :: 0 <= k < |pos| ==> pos[k] < |params| && missing[k] == params[pos[k]]
    decreases |params|
  {
    if params != [] {
      var n := |params| - 1;
      var init := params[..n];
      MissingPositionsPick(reqdata, init);
      var m0, p0 := MissingNames(reqdata, init), MissingPositions(reqdata, init);
      var missing, pos := MissingNames(reqdata, params), MissingPositions(reqdata, params);
      forall k | 0 <= k < |pos| ensures pos[k] < |params| && missing[k] == params[pos[k]] {
        if k < |p0| {
          assert pos[k] == p0[k] && missing[k] == m0[k];
          assert init[p0[k]] == params[p0[k]];
        }
      }
    }
  }

  /** A position is listed exactly when the value of its name is missing. */
  lemma {:induction false} MissingPositionsExact(reqdata: map<string, Value>, params: seq<string>)
    ensures var pos := MissingPositions(reqdata, params);
      forall i :: 0 <= i < |params| ==> (i in pos <==> IsMissing(Get(reqdata, params[i])))
    decreases |params|
  {
    if params != [] {
      var n := |params| - 1;
      var init := params[..n];
      MissingPositionsExact(reqdata, init);
      var p0, pos := MissingPositions(reqdata, init), MissingPositions(reqdata, params);
      var last := if IsMissing(Get(reqdata, params[n])) then [n] else [];
      assert pos == p0 + last;
      assert n !in p0;
      forall i | 0 <= i < n ensures params[i] == init[i] && (i in pos <==> i in p0) {
      }
    }
  }

  /** Every name is missing exactly when `MissingNames` keeps all of `params`. */
  lemma {:induction false} AllMissing(reqdata: map<string, Value>, params: seq<string>)
    ensures |MissingNames(reqdata, params)| == |params| <==> forall p :: p in params ==> IsMissing(Get(reqdata, p))
    decreases |params|
  {
    if params != [] {
      var n := |params| - 1;
      AllMissing(reqdata, params[..n]);
      assert params == params[..n] + [params[n]];
    }
  }

  /** All-mode: an error is returned if and only if some name is missing. */
  lemma RequiredAllMode(reqdata: map<string, Value>, params: seq<string>)
    ensures RequiredOutcome(reqdata, params, false).Some?
        <==> exists p :: p in params && IsMissing(Get(reqdata, p))
  {
    var missing := MissingNames(reqdata, params);
    if |missing| != 0 {
      MissingNamesMembers(reqdata, params, missing[0]);
    } else {
      forall p | p in params ensures !IsMissing(Get(reqdata, p)) {
        MissingNamesMembers(reqdata, params, p);
      }
    }
  }

  /** Any-mode: an error is returned if and only if `params` is non-empty and
      every name in it is missing. */
  lemma RequiredAnyMode(reqdata: map<string, Value>, params: seq<string>)
    ensures RequiredOutcome(reqdata, params, true).Some?
        <==> |params| != 0 && forall p :: p in params ==> IsMissing(Get(reqdata, p))
  {
    AllMissing(reqdata, params);
  }

  /** The message of an error is the prefix followed by the missing names; when
      no name contains the separator, splitting the rest at it gives back exactly
      the missing names, in order. */
  lemma RequiredMessage(reqdata: map<string, Value>, params: seq<string>, any: bool)
    requires RequiredOutcome(reqdata, params, any).Some?
    requires forall p :: p in params ==> Separator(any) !in p
    ensures var message := RequiredOutcome(reqdata, params, any).value;
      && |MessagePrefix| <= |message|
      && message[..|MessagePrefix|] == MessagePrefix
      && Split(message[|MessagePrefix|..], Separator(any)) == MissingNames(reqdata, params)
  {
    var missing := MissingNames(reqdata, params);
    var message := RequiredOutcome(reqdata, params, any).value;
    forall k | 0 <= k < |missing| ensures Separator(any) !in missing[k] {
      MissingNamesMembers(reqdata, params, missing[k]);
    }
    SplitJoin(missing, Separator(any));
    assert message[|MessagePrefix|..] == Join(missing, [Separator(any)]);
  }

  /** The cases exercised by the module's own test code and documentation. */
  lemma RequiredExamples()
    ensures RequiredOutcome(map["id" := Num(0.0)], ["id", "key"], true) == None
    ensures RequiredOutcome(map["id" := Num(0.0)], ["id", "key"], false) == Some("missing required params: key")
    ensures RequiredOutcome(map[], ["id", "key"], true) == Some("missing required params: id|key")
    ensures RequiredOutcome(map["id" := Num(1.0)], ["id", "key"], true) == None
    ensures RequiredOutcome(map["id" := Str("")], ["id"], false) == Some("missing required params: id")
  {
    var withZero := map["id" := Num(0.0)];
    assert ["id", "key"][..1] == ["id"];
    assert MissingNames(withZero, ["id", "key"]) == ["key"];
    assert MissingNames(map[], ["id", "key"]) == ["id", "key"];
    assert MissingNames(map["id" := Num(1.0)], ["id", "key"]) == ["key"];
    assert Join(["key"], ",") == "key" && Join(["key"], "|") == "key";
    assert ["id", "key"][1..] == ["key"];
    assert Join(["id", "key"], "|") == "id" + "|" + "key";
    assert MessagePrefix + "key" == "missing required params: key";
    assert [Separator(true)] == "|" && [Separator(false)] == ",";
    assert "id" + "|" + "key" == "id|key";
    assert ["id"][..0] == [];
    assert MissingNames(map["id" := Str("")], ["id"]) == ["id"];
    assert Join(["id"], ",") == "id";
    assert MessagePrefix + "id" == "missing required params: id";
    assert MessagePrefix + "id|key" == "missing required params: id|key";
  }

  // ===========================================================================
  // isTrue(str)
  //
  // `str` is `undefined` (None) or a value whose string form `str + ''` is the
  // carried string.

  /** The cases of the `switch` that return false: the string forms `isTrue`
      reads as false, after lower-casing. */
  predicate IsFalsyToken(t: string) {
    t == "undefined" || t == "false" || t == "null" || t == "off" || t == "no" || t == "0" || t == ""
  }

  function IsTrue(str: Option<string>): bool {
    match str
    case None => false
    case Some(s) => !IsFalsyToken(ToLowerCase(s))
  }

  /** A defined value is false exactly when its string form is one of the
      falsy tokens written in any mix of upper and lower case. */
  lemma IsTrueTable(s: string)
    ensures !IsTrue(Some(s)) <==> exists t :: IsFalsyToken(t) && SameIgnoringCase(s, t)
  {
    var lower := ToLowerCase(s);
    forall t | IsFalsyToken(t) ensures ToLowerCase(t) == t {
      LowerCaseToken(t);
    }
    if IsFalsyToken(lower) {
      assert SameIgnoringCase(s, lower) by {
        forall i | 0 <= i < |s| ensures LowerChar(s[i]) == LowerChar(lower[i]) {
        }
      }
    }
    forall t | IsFalsyToken(t) && SameIgnoringCase(s, t) ensures lower == t {
      assert ToLowerCase(t) == t;
    }
  }

  /** Every falsy token is already in lower case. */
  lemma LowerCaseToken(t: string)
    requires IsFalsyToken(t)
    ensures ToLowerCase(t) == t
  {
    LowerCaseFixed(t);
  }

  /** A string without upper-case ASCII letters is its own lower-case form. */
  lemma LowerCaseFixed(t: string)
    requires forall i :: 0 <= i < |t| ==> !IsUpper(t[i])
    ensures ToLowerCase(t) == t
  {
  }

  /** The coercion depends only on the lower-cased string form. */
  lemma IsTrueIgnoresCase(a: string, b: string)
    requires SameIgnoringCase(a, b)
    ensures IsTrue(Some(a)) == IsTrue(Some(b))
  {
    assert ToLowerCase(a) == ToLowerCase(b);
  }

  /** `undefined`, and the false tokens in any case, are false. */
  lemma IsTrueFalseExamples()
    ensures !IsTrue(None)
    ensures !IsTrue(Some("FALSE")) && !IsTrue(Some("Off")) && !IsTrue(Some("")) && !IsTrue(Some("0"))
  {
    assert ToLowerCase("FALSE") == "false";
    assert ToLowerCase("Off") == "off";
    assert ToLowerCase("0") == "0";
  }

  /** Anything outside the table is true, including "TRUE", "yes" and "1". */
  lemma IsTrueTrueExamples()
    ensures IsTrue(Some("yes")) && IsTrue(Some("1")) && IsTrue(Some("TRUE"))
  {
    assert ToLowerCase("yes") == "yes";
    assert ToLowerCase("1") == "1";
    assert ToLowerCase("TRUE") == "true";
  }

  // ===========================================================================
  // isValidEmail(email)
  //
  // The pattern /^[a-zA-Z0-9._\+\-]+@[a-zA-Z0-9.\-]+\.[a-zA-Z]{2,4}$/ is built
  // afresh on each call, so its `g` flag (and `lastIndex`) has no effect.

  predicate IsAsciiLetter(c: char) { 'a' <= c <= 'z' || 'A' <= c <= 'Z' }

  predicate IsAsciiDigit(c: char) { '0' <= c <= '9' }

  /** The class `[a-zA-Z0-9._+-]` of the local part. */
  predicate IsLocalChar(c: char) {
    IsAsciiLetter(c) || IsAsciiDigit(c) || c == '.' || c == '_' || c == '+' || c == '-'
  }

  /** The class `[a-zA-Z0-9.-]` of the domain part. */
  predicate IsDomainChar(c: char) {
    IsAsciiLetter(c) || IsAsciiDigit(c) || c == '.' || c == '-'
  }

  predicate AllLocal(s: string) { forall i :: 0 <= i < |s| ==> IsLocalChar(s[i]) }

  predicate AllDomain(s: string) { forall i :: 0 <= i < |s| ==> IsDomainChar(s[i]) }

  predicate AllLetters(s: string) { forall i :: 0 <= i < |s| ==> IsAsciiLetter(s[i]) }

  /** `s` matches the pattern with its `@` at index `at` and the `.` before the
      top-level domain at index `dot`. */
  predicate MatchesAt(s: string, at: int, dot: int) {
    && 0 < at && at + 1 < dot < |s|
    && s[at] == '@' && s[dot] == '.'
    && AllLocal(s[..at])
    && AllDomain(s[at + 1..dot])
    && 2 <= |s| - (dot + 1) <= 4 && AllLetters(s[dot + 1..])
  }

  /** What the anchored regular expression accepts: some way of cutting `s`
      into local part, `@`, domain, `.` and top-level domain. */
  ghost predicate EmailPattern(s: string) {
    exists at, dot :: MatchesAt(s, at, dot)
  }

  /** `isValidEmail`: no character class admits `@`, so the only cut that can
      work is at the first `@`; letters admit no `.`, so the top-level domain
      starts after the last `.`. */
  function IsValidEmail(email: string): bool {
    var at := FirstIndexOfChar(email, '@');
    var dot := LastIndexOfChar(email, '.');
    MatchesAt(email, at, dot)
  }

  /** The matcher accepts exactly the strings the regular expression matches. */
  lemma IsValidEmailMatchesPattern(s: string)
    ensures IsValidEmail(s) <==> EmailPattern(s)
  {
    var first, last := FirstIndexOfChar(s, '@'), LastIndexOfChar(s, '.');
    if IsValidEmail(s) {
      assert MatchesAt(s, first, last);
    }
    if EmailPattern(s) {
      var at, dot :| MatchesAt(s, at, dot);
      var local, tld := s[..at], s[dot + 1..];
      assert '@' !in local by {
        forall i | 0 <= i < |local| ensures local[i] != '@' {
          assert IsLocalChar(local[i]);
        }
      }
      assert '.' !in tld by {
        forall i | 0 <= i < |tld| ensures tld[i] != '.' {
          assert IsAsciiLetter(tld[i]);
        }
      }
      assert s[at] == '@' && s[dot] == '.';
    }
  }

  /** An accepted address holds exactly one `@`. */
  lemma ValidEmailHasOneAt(s: string, i: int, j: int)
    requires IsValidEmail(s)
    requires 0 <= i < |s| && 0 <= j < |s| && s[i] == '@' && s[j] == '@'
    ensures i == j
  {
    var at, dot := FirstIndexOfChar(s, '@'), LastIndexOfChar(s, '.');
    assert MatchesAt(s, at, dot);
    forall k | at < k < |s| ensures s[k] != '@' {
      if k < dot {
        assert s[k] == s[at + 1..dot][k - at - 1];
      } else if k > dot {
        assert s[k] == s[dot + 1..][k - dot - 1];
      }
    }
    forall k | 0 <= k < at ensures s[k] != '@' {
      assert s[k] == s[..at][k];
    }
  }

  /** Any local part, domain and top-level domain drawn from their classes
      make an accepted address. */
  lemma IsValidEmailFromParts(local: string, domain: string, tld: string)
    requires |local| > 0 && AllLocal(local)
    requires |domain| > 0 && AllDomain(domain)
    requires 2 <= |tld| <= 4 && AllLetters(tld)
    ensures IsValidEmail(local + "@" + domain + "." + tld)
  {
    var s := local + "@" + domain + "." + tld;
    var at, dot := |local|, |local| + 1 + |domain|;
    assert s[..at] == local;
    assert s[at + 1..dot] == domain;
    assert s[dot + 1..] == tld;
    assert MatchesAt(s, at, dot);
    IsValidEmailMatchesPattern(s);
  }

  lemma IsValidEmailAcceptsShortAddress()
    ensures IsValidEmail("a@b.com")
  {
    assert AllLocal("a") && AllDomain("b") && AllLetters("com");
    IsValidEmailFromParts("a", "b", "com");
    assert "a" + "@" + "b" + "." + "com" == "a@b.com";
  }

  /** A one-letter top-level domain is too short. */
  lemma IsValidEmailRejectsShortDomain()
    ensures !IsValidEmail("a@b.c")
  {
    var s := "a@b.c";
    forall at, dot ensures !MatchesAt(s, at, dot) {
    }
    IsValidEmailMatchesPattern(s);
  }

  /** A six-letter top-level domain is too long. */
  lemma IsValidEmailRejectsLongDomain()
    ensures !IsValidEmail("a@b.museum")
  {
    var s := "a@b.museum";
    forall at, dot ensures !MatchesAt(s, at, dot) {
      if 5 <= dot <= 7 {
        assert s[dot] != '.';
      }
    }
    IsValidEmailMatchesPattern(s);
  }

  /** A plain word is rejected: it has neither an `@` nor a `.` where the
      top-level domain would start. */
  lemma IsValidEmailRejectsPlainWord()
    ensures !IsValidEmail("not-an-email")
  {
    var s := "not-an-email";
    assert s[7] == 'e' && s[8] == 'm' && s[9] == 'a';
    forall at, dot ensures !MatchesAt(s, at, dot) {
      if 7 <= dot <= 9 {
        assert s[dot] != '.';
      }
    }
    IsValidEmailMatchesPattern(s);
  }

  // ===========================================================================
  // isWebUri(url, strict)
  //
  // `url` is `undefined` (None) or a string; the external `validUrl.isWebUri`
  // is the parameter `validate`, which answers the URI back or `undefined`.

  const HttpScheme: string := "http://"

  /** The string handed to the validator: in non-strict mode `http://` is put
      in front unless the string already contains it somewhere. */
  function WebUriCandidate(url: string, strict: bool): string {
    if !strict && IndexOf(url, HttpScheme) == -1 then HttpScheme + url else url
  }

  function IsWebUri(url: Option<string>, strict: bool, validate: string -> Option<string>): Option<string> {
    if url.None? || url.value == "" then url
    else validate(WebUriCandidate(url.value, strict))
  }

  /** A falsy url comes back unchanged; any other url is judged by the
      validator, which sees `http://` + url exactly when the mode is not strict
      and url does not contain `http://`, and url itself otherwise. */
  lemma IsWebUriValidatorInput(url: Option<string>, strict: bool, validate: string -> Option<string>)
    ensures url == None || url == Some("") ==> IsWebUri(url, strict, validate) == url
    ensures url.Some? && url.value != "" ==>
      IsWebUri(url, strict, validate) ==
        validate(if !strict && !Contains(url.value, HttpScheme) then HttpScheme + url.value else url.value)
  {
  }

  /** In non-strict mode the validator always receives a string containing
      `http://`. */
  lemma WebUriCandidateHasScheme(url: string)
    ensures Contains(WebUriCandidate(url, false), HttpScheme)
  {
    if IndexOf(url, HttpScheme) == -1 {
      assert OccursAt(HttpScheme + url, HttpScheme, 0);
    }
  }

  /** Normalising twice is normalising once. */
  lemma WebUriCandidateIdempotent(url: string, strict: bool)
    ensures WebUriCandidate(WebUriCandidate(url, strict), strict) == WebUriCandidate(url, strict)
  {
    if !strict {
      WebUriCandidateHasScheme(url);
    }
  }

  /** A bare host name gets the scheme in non-strict mode and nothing in strict mode. */
  lemma WebUriCandidateBareHost()
    ensures WebUriCandidate("example.com", false) == "http://example.com"
    ensures WebUriCandidate("example.com", true) == "example.com"
  {
    var s := "example.com";
    forall j | 0 <= j <= 4 ensures !OccursAt(s, HttpScheme, j) {
      assert s[j..j + 7][0] == s[j];
      assert s[j] != 'h';
    }
    assert !Contains(s, HttpScheme);
    assert HttpScheme + s == "http://example.com";
  }

  /** The containment test is a substring test, not a prefix test: a secure
      URL is prefixed too ... */
  lemma WebUriCandidateHttps()
    ensures WebUriCandidate("https://x", false) == "http://https://x"
  {
    var s := "https://x";
    forall j | 0 <= j <= 2 ensures !OccursAt(s, HttpScheme, j) {
      if j == 0 {
        assert s[j..j + 7][4] == 's';
      } else {
        assert s[j..j + 7][0] == 't';
      }
    }
    assert !Contains(s, HttpScheme);
    assert HttpScheme + s == "http://https://x";
  }

  /** ... and a string holding `http://` past its start is left alone. */
  lemma WebUriCandidateInnerScheme()
    ensures WebUriCandidate("ftp://h/http://x", false) == "ftp://h/http://x"
  {
    assert OccursAt("ftp://h/http://x", HttpScheme, 8);
  }

  // ===========================================================================
  // randomValueHex(len)
  //
  // `crypto.randomBytes(Math.ceil(len / 2))` is the parameter `bytes`; only
  // its length is constrained.

  newtype byte = x: int | 0 <= x < 256

  /** The digits `Buffer#toString('hex')` writes: `0`-`9` and `a`-`f`. */
  predicate IsHexDigit(c: char) {
    '0' <= c <= '9' || 'a' <= c <= 'f'
  }

  /** The lower-case digit for a nibble. */
  function HexDigit(v: nat): (c: char)
    requires v < 16
    ensures IsHexDigit(c)
  {
    if v < 10 then ('0' as int + v) as char else ('a' as int + v - 10) as char
  }

  /** `Math.ceil(len / 2)`: the fewest bytes whose two digits each cover `len`. */
  function ByteCount(len: nat): (n: nat)
    ensures (n as real) - 1.0 < (len as real) / 2.0 <= n as real
  {
    (len + 1) / 2
  }

  /** `buf.toString('hex')`: two lower-case digits per byte, high nibble first. */
  function Hex(bytes: seq<byte>): (r: string)
    ensures |r| == 2 * |bytes|
    ensures forall i :: 0 <= i < |r| ==> IsHexDigit(r[i])
  {
    if bytes == [] then []
    else [HexDigit(bytes[0] as int / 16), HexDigit(bytes[0] as int % 16)] + Hex(bytes[1..])
  }

  /** The nibble a hex digit stands for. */
  function DigitValue(c: char): (v: nat)
    requires IsHexDigit(c)
    ensures v < 16 && HexDigit(v) == c
  {
    if '0' <= c <= '9' then c as int - '0' as int else c as int - 'a' as int + 10
  }

  /** Digit `i` of the encoding is the high nibble of byte `i / 2` when `i` is
      even and its low nibble when `i` is odd. */
  lemma {:induction false} HexDigitAt(bytes: seq<byte>, i: nat)
    requires i < 2 * |bytes|
    ensures DigitValue(Hex(bytes)[i]) == if i % 2 == 0 then bytes[i / 2] as int / 16 else bytes[i / 2] as int % 16
    decreases |bytes|
  {
    if i >= 2 {
      HexDigitAt(bytes[1..], i - 2);
      assert Hex(bytes)[i] == Hex(bytes[1..])[i - 2];
    }
  }

  /** Reads an even-length hex string back into bytes. */
  function Unhex(s: string): (bytes: seq<byte>)
    requires |s| % 2 == 0
    requires forall i :: 0 <= i < |s| ==> IsHexDigit(s[i])
    ensures |bytes| == |s| / 2
  {
    if s == [] then []
    else [(DigitValue(s[0]) * 16 + DigitValue(s[1])) as byte] + Unhex(s[2..])
  }

  /** The encoding loses nothing: decoding gives the bytes back. */
  lemma {:induction false} UnhexHex(bytes: seq<byte>)
    ensures Unhex(Hex(bytes)) == bytes
    decreases |bytes|
  {
    if bytes != [] {
      var h := Hex(bytes);
      assert h[2..] == Hex(bytes[1..]);
      UnhexHex(bytes[1..]);
      HexDigitAt(bytes, 0);
      HexDigitAt(bytes, 1);
      assert [bytes[0]] + bytes[1..] == bytes;
    }
  }

  /** `randomValueHex(len)` given the bytes drawn for it: the first `len`
      digits of their encoding. */
  function RandomValueHex(len: nat, bytes: seq<byte>): (r: string)
    requires |bytes| == ByteCount(len)
    ensures |r| == len
    ensures forall i :: 0 <= i < |r| ==> IsHexDigit(r[i])
  {
    Hex(bytes)[..len]
  }

  /** Each digit of the result is a nibble of the drawn bytes, in order; an
      odd `len` keeps only the high nibble of the last byte. */
  lemma RandomValueHexDigits(len: nat, bytes: seq<byte>, i: nat)
    requires |bytes| == ByteCount(len)
    requires i < len
    ensures i / 2 < |bytes|
    ensures DigitValue(RandomValueHex(len, bytes)[i]) ==
      if i % 2 == 0 then bytes[i / 2] as int / 16 else bytes[i / 2] as int % 16
  {
    HexDigitAt(bytes, i);
  }

  /** An even `len` keeps the whole encoding, so the bytes can be read back;
      an odd one drops exactly the last digit. */
  lemma RandomValueHexTruncation(len: nat, bytes: seq<byte>)
    requires |bytes| == ByteCount(len)
    ensures len % 2 == 0 ==> RandomValueHex(len, bytes) == Hex(bytes)
    ensures len % 2 == 0 ==> Unhex(RandomValueHex(len, bytes)) == bytes
    ensures len % 2 == 1 ==> RandomValueHex(len, bytes) + [Hex(bytes)[len]] == Hex(bytes)
  {
    UnhexHex(bytes);
    var h := Hex(bytes);
    assert h[..|h|] == h;
    assert len % 2 == 1 ==> h[..len] + [h[len]] == h[..len + 1];
  }
}
