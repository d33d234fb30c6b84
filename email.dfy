/**
 * The email helpers: `isValidEmail`, `getEmailDomain` and `sanitizeEmail`
 * over a dynamically typed argument.
 */
module Email {
  import opened Js
  import opened JsString

  const TYPE_ERROR_MESSAGE: string := "Email must be a string"

  // ------------------------------------------------ the address pattern

  /** A character of the class `[^\s@]`. */
  predicate IsAddressChar(c: char) {
    !IsWs(c) && c != '@'
  }

  /** `[^\s@]+` matches the whole of `s`. */
  predicate IsAddressRun(s: string) {
    |s| > 0 && forall k | 0 <= k < |s| :: IsAddressChar(s[k])
  }

  /** `[^\s@]+\.[^\s@]+` matches the whole of `d`, for some choice of the literal dot. */
  predicate MatchesDomainPattern(d: string) {
    exists j | 0 < j < |d| - 1 :: d[j] == '.' && IsAddressRun(d[..j]) && IsAddressRun(d[j + 1..])
  }

  /** The anchored pattern `^[^\s@]+@[^\s@]+\.[^\s@]+$` matches `t`. */
  predicate MatchesEmailPattern(t: string) {
    exists i | 0 < i < |t| :: t[i] == '@' && IsAddressRun(t[..i]) && MatchesDomainPattern(t[i + 1..])
  }

  /** A `.` that is neither the first nor the last character of `d`. */
  predicate HasInnerDot(d: string) {
    exists k | 0 < k < |d| - 1 :: d[k] == '.'
  }

  /**
   * The same language described by its parts: exactly one `@`, no white
   * space, a non-empty local part, and an inner dot in the domain part.
   */
  predicate IsWellFormedAddress(t: string) {
    && Count(t, '@') == 1
    && NoWs(t)
    && var parts := Split(t, '@');
       && |parts| == 2
       && parts[0] != []
       && HasInnerDot(parts[1])
  }

  /** Each character of a matched domain is an address character or a dot, and it has an inner dot. */
  lemma DomainPatternFacts(d: string)
    requires MatchesDomainPattern(d)
    ensures forall k | 0 <= k < |d| :: !IsWs(d[k]) && d[k] != '@'
    ensures HasInnerDot(d)
  {
    var j :| 0 < j < |d| - 1 && d[j] == '.' && IsAddressRun(d[..j]) && IsAddressRun(d[j + 1..]);
    forall k | 0 <= k < |d| ensures !IsWs(d[k]) && d[k] != '@' {
      if k < j {
        assert d[k] == d[..j][k];
      } else if k > j {
        assert d[k] == d[j + 1..][k - j - 1];
      }
    }
  }

  /** Gluing two `@`-free strings with one `@` gives a string that `split('@')` cuts back into them. */
  lemma SplitAroundAt(local: string, d: string)
    requires '@' !in local && '@' !in d
    ensures Split(local + "@" + d, '@') == [local, d]
    ensures Count(local + "@" + d, '@') == 1
  {
    var parts := [local, d];
    assert parts[1..] == [d];
    assert Join(parts, '@') == local + "@" + d;
    SplitJoin(parts, '@');
    SplitLength(local + "@" + d, '@');
  }

  /** A run of `[^\s@]` has neither white space nor `@`. */
  lemma AddressRunFacts(s: string)
    requires IsAddressRun(s)
    ensures NoWs(s) && '@' !in s
  {
  }

  lemma NoWsAroundAt(local: string, d: string)
    requires NoWs(local) && NoWs(d)
    ensures NoWs(local + "@" + d)
  {
    var t := local + "@" + d;
    forall k | 0 <= k < |t| ensures !IsWs(t[k]) {
      if k < |local| {
        assert t[k] == local[k];
      } else if k > |local| {
        assert t[k] == d[k - |local| - 1];
      }
    }
  }

  lemma WellFormedFromParts(t: string, local: string, d: string)
    requires t == local + "@" + d
    requires '@' !in local && '@' !in d && NoWs(local) && NoWs(d)
    requires local != [] && HasInnerDot(d)
    ensures IsWellFormedAddress(t)
  {
    SplitAroundAt(local, d);
    NoWsAroundAt(local, d);
  }

  /** A match whose `@` sits at position `i` is well formed. */
  lemma MatchAtImpliesWellFormed(t: string, i: nat)
    requires 0 < i < |t| && t[i] == '@'
    requires IsAddressRun(t[..i]) && MatchesDomainPattern(t[i + 1..])
    ensures IsWellFormedAddress(t)
  {
    var local, d := t[..i], t[i + 1..];
    AddressRunFacts(local);
    DomainPatternFacts(d);
    assert NoWs(d) && '@' !in d;
    assert t == local + "@" + d;
    WellFormedFromParts(t, local, d);
  }

  lemma PatternImpliesWellFormed(t: string)
    requires MatchesEmailPattern(t)
    ensures IsWellFormedAddress(t)
  {
    var i :| 0 < i < |t| && t[i] == '@' && IsAddressRun(t[..i]) && MatchesDomainPattern(t[i + 1..]);
    MatchAtImpliesWellFormed(t, i);
  }

  /** A white-space-free prefix without `@` is a run of `[^\s@]`. */
  lemma AddressRunPrefix(s: string, i: nat)
    requires 0 < i <= |s| && NoWs(s) && '@' !in s[..i]
    ensures IsAddressRun(s[..i])
  {
    forall k | 0 <= k < i ensures IsAddressChar(s[..i][k]) {
      assert s[..i][k] == s[k];
    }
  }

  /** A white-space-free suffix without `@` is a run of `[^\s@]`. */
  lemma AddressRunSuffix(s: string, i: nat)
    requires i < |s| && NoWs(s) && '@' !in s[i..]
    ensures IsAddressRun(s[i..]) && NoWs(s[i..])
  {
    forall k | 0 <= k < |s| - i ensures IsAddressChar(s[i..][k]) {
      assert s[i..][k] == s[i + k];
    }
  }

  lemma NoAtInSlices(d: string, j: nat)
    requires '@' !in d && j < |d|
    ensures '@' !in d[..j] && '@' !in d[j + 1..]
  {
    var front, back := d[..j], d[j + 1..];
    assert forall k | 0 <= k < |front| :: front[k] == d[k];
    assert forall k | 0 <= k < |back| :: back[k] == d[j + 1 + k];
  }

  /** Cutting a white-space-free string at its only `@` (position `i`) and an inner dot of the rest (position `j`) gives a match. */
  lemma MatchFromCuts(t: string, i: nat, j: nat)
    requires 0 < i < |t| && t[i] == '@' && NoWs(t)
    requires '@' !in t[..i] && '@' !in t[i + 1..]
    requires 0 < j < |t| - i - 2 && t[i + 1..][j] == '.'
    ensures MatchesEmailPattern(t)
  {
    var d := t[i + 1..];
    AddressRunPrefix(t, i);
    AddressRunSuffix(t, i + 1);
    NoAtInSlices(d, j);
    AddressRunPrefix(d, j);
    AddressRunSuffix(d, j + 1);
    assert d[j] == '.' && IsAddressRun(d[..j]) && IsAddressRun(d[j + 1..]);
    assert t[i] == '@' && IsAddressRun(t[..i]) && MatchesDomainPattern(d);
  }

  lemma WellFormedImpliesPattern(t: string)
    requires IsWellFormedAddress(t)
    ensures MatchesEmailPattern(t)
  {
    SplitAtSingle(t, '@');
    var i := IndexOf(t, '@');
    var d := t[i + 1..];
    assert Split(t, '@')[1] == d;
    var j :| 0 < j < |d| - 1 && d[j] == '.';
    MatchFromCuts(t, i, j);
  }

  /** The pattern and its description by parts accept exactly the same strings. */
  lemma PatternIffWellFormed(t: string)
    ensures MatchesEmailPattern(t) <==> IsWellFormedAddress(t)
  {
    if MatchesEmailPattern(t) {
      PatternImpliesWellFormed(t);
    }
    if IsWellFormedAddress(t) {
      WellFormedImpliesPattern(t);
    }
  }

  // ---------------------------------------------------------- isValidEmail

  /** `isValidEmail`: a non-string is invalid; a string is trimmed and matched against the pattern. */
  function IsValidEmail(v: JsValue): bool {
    match v
    case Str(s) => MatchesEmailPattern(Trim(s))
    case _ => false
  }

  /** Non-string arguments are rejected without an error. */
  lemma IsValidEmailNonString(v: JsValue)
    requires !v.Str?
    ensures !IsValidEmail(v)
  {
  }

  /** The accepted strings, described by their parts after trimming. */
  lemma IsValidEmailIff(s: string)
    ensures IsValidEmail(Str(s)) <==> IsWellFormedAddress(Trim(s))
  {
    PatternIffWellFormed(Trim(s));
  }

  /** Surrounding white space is irrelevant to validity. */
  lemma IsValidEmailIgnoresPadding(pre: string, s: string, post: string)
    requires AllWs(pre) && AllWs(post)
    ensures IsValidEmail(Str(pre + s + post)) == IsValidEmail(Str(s))
    ensures IsValidEmail(Str(s)) == IsValidEmail(Str(Trim(s)))
  {
    TrimIgnoresPadding(pre, s, post);
    TrimIdempotent(s);
  }

  /** A valid address contains no white space after trimming and exactly one `@`. */
  lemma ValidAddressShape(s: string)
    requires IsValidEmail(Str(s))
    ensures NoWs(Trim(s)) && Count(Trim(s), '@') == 1
  {
    IsValidEmailIff(s);
  }

  // ---------------------------------------------------------- getEmailDomain

  /** `getEmailDomain`: `null` (None) unless valid; otherwise the second part of `split('@')` of the trimmed string. */
  function GetEmailDomain(v: JsValue): Option<string> {
    if !IsValidEmail(v) then None
    else
      var parts := Split(Trim(v.s), '@');
      IsValidEmailIff(v.s);
      Some(parts[1])
  }

  /** The domain is `null` exactly when the address is invalid. */
  lemma GetEmailDomainNullIff(v: JsValue)
    ensures GetEmailDomain(v).None? <==> !IsValidEmail(v)
  {
  }

  /** The two parts of a well-formed address: a non-empty local part and a domain with a dot, no `@` and no white space. */
  lemma WellFormedParts(t: string)
    requires IsWellFormedAddress(t)
    ensures |Split(t, '@')| == 2
    ensures var d := Split(t, '@')[1];
      && |d| + 1 < |t|
      && t == t[..|t| - |d| - 1] + "@" + d
      && d != []
      && '@' !in d
      && NoWs(d)
      && '.' in d
  {
    SplitAtSingle(t, '@');
    var i := IndexOf(t, '@');
    assert Split(t, '@')[1] == t[i + 1..];
    DomainAfterAt(t, i);
  }

  /** The part after the only `@`, at position `i`, of a white-space-free string with an inner dot there. */
  lemma DomainAfterAt(t: string, i: nat)
    requires 0 < i < |t| && t[i] == '@' && NoWs(t) && '@' !in t[i + 1..] && HasInnerDot(t[i + 1..])
    ensures var d := t[i + 1..];
      && |d| + 1 < |t|
      && t == t[..|t| - |d| - 1] + "@" + d
      && d != []
      && NoWs(d)
      && '.' in d
  {
    var d := t[i + 1..];
    var k :| 0 < k < |d| - 1 && d[k] == '.';
    AddressRunSuffix(t, i + 1);
    assert |t| - |d| - 1 == i;
    assert t == t[..i] + "@" + d;
  }

  /** A valid trimmed address is a non-empty local part, `@` and the domain; the domain has no `@`, no white space and a dot. */
  lemma GetEmailDomainParts(s: string)
    requires IsValidEmail(Str(s))
    ensures GetEmailDomain(Str(s)).Some?
    ensures var t, d := Trim(s), GetEmailDomain(Str(s)).value;
      && |d| + 1 < |t|
      && t == t[..|t| - |d| - 1] + "@" + d
      && d != []
      && '@' !in d
      && NoWs(d)
      && '.' in d
  {
    IsValidEmailIff(s);
    WellFormedParts(Trim(s));
  }

  // ---------------------------------------------------------- sanitizeEmail

  /** `sanitizeEmail`: a type error for a non-string, otherwise the trimmed, lower-cased string. */
  function SanitizeEmail(v: JsValue): (r: Result<string>)
    ensures r.Throw? <==> !v.Str?
    ensures r.Throw? ==> r.error == JsError(TypeError, TYPE_ERROR_MESSAGE)
  {
    match v
    case Str(s) => Ok(ToLower(Trim(s)))
    case _ => Throw(JsError(TypeError, TYPE_ERROR_MESSAGE))
  }

  /**
   * A sanitized string is the trimmed input with each ASCII upper-case letter
   * replaced by its lower-case form and every other character kept; it has no
   * surrounding white space and no upper-case ASCII letter.
   */
  lemma SanitizeEmailResult(s: string)
    ensures SanitizeEmail(Str(s)).Ok?
    ensures var r, t := SanitizeEmail(Str(s)).value, Trim(s);
      && |r| == |t|
      && (forall k | 0 <= k < |t| :: !IsAsciiUpper(t[k]) ==> r[k] == t[k])
      && (forall k | 0 <= k < |t| :: IsAsciiUpper(t[k]) ==> r[k] as int == t[k] as int + 32)
      && (forall k | 0 <= k < |r| :: !IsAsciiUpper(r[k]))
      && IsTrimmed(r)
  {
    var t := Trim(s);
    ToLowerKeepsDelimiters(t);
  }

  /** Sanitizing twice is sanitizing once. */
  lemma SanitizeEmailIdempotent(s: string)
    ensures SanitizeEmail(Str(s)).Ok?
    ensures SanitizeEmail(Str(SanitizeEmail(Str(s)).value)) == SanitizeEmail(Str(s))
  {
    var t := Trim(s);
    SanitizeEmailResult(s);
    TrimOfTrimmed(ToLower(t));
    ToLowerIdempotent(t);
  }

  lemma SameDelimitersRun(a: string, b: string)
    requires SameDelimiters(a, b) && IsAddressRun(a)
    ensures IsAddressRun(b)
  {
    forall k | 0 <= k < |b| ensures IsAddressChar(b[k]) {
      assert IsAddressChar(a[k]);
    }
  }

  /** A domain match with its dot at `j` carries over to a string with the same delimiters. */
  lemma SameDelimitersDomainAt(da: string, db: string, j: nat)
    requires SameDelimiters(da, db) && 0 < j < |da| - 1
    requires da[j] == '.' && IsAddressRun(da[..j]) && IsAddressRun(da[j + 1..])
    ensures db[j] == '.' && IsAddressRun(db[..j]) && IsAddressRun(db[j + 1..])
  {
    SameDelimitersPrefix(da, db, j);
    SameDelimitersRun(da[..j], db[..j]);
    SameDelimitersSuffix(da, db, j + 1);
    SameDelimitersRun(da[j + 1..], db[j + 1..]);
  }

  lemma SameDelimitersDomain(da: string, db: string)
    requires SameDelimiters(da, db) && MatchesDomainPattern(da)
    ensures MatchesDomainPattern(db)
  {
    var j :| 0 < j < |da| - 1 && da[j] == '.' && IsAddressRun(da[..j]) && IsAddressRun(da[j + 1..]);
    SameDelimitersDomainAt(da, db, j);
  }

  /** A match with its `@` at `i` carries over to a string with the same delimiters. */
  lemma SameDelimitersMatchAt(a: string, b: string, i: nat)
    requires SameDelimiters(a, b) && 0 < i < |a|
    requires a[i] == '@' && IsAddressRun(a[..i]) && MatchesDomainPattern(a[i + 1..])
    ensures b[i] == '@' && IsAddressRun(b[..i]) && MatchesDomainPattern(b[i + 1..])
  {
    SameDelimitersPrefix(a, b, i);
    SameDelimitersRun(a[..i], b[..i]);
    SameDelimitersSuffix(a, b, i + 1);
    SameDelimitersDomain(a[i + 1..], b[i + 1..]);
  }

  /** Whether the pattern matches depends only on where white space, `@` and `.` sit. */
  lemma SameDelimitersPattern(a: string, b: string)
    requires SameDelimiters(a, b) && MatchesEmailPattern(a)
    ensures MatchesEmailPattern(b)
  {
    var i :| 0 < i < |a| && a[i] == '@' && IsAddressRun(a[..i]) && MatchesDomainPattern(a[i + 1..]);
    SameDelimitersMatchAt(a, b, i);
  }

  /** Lower-casing a string does not change whether the pattern matches it. */
  lemma PatternIgnoresCase(t: string)
    ensures MatchesEmailPattern(ToLower(t)) == MatchesEmailPattern(t)
  {
    ToLowerKeepsDelimiters(t);
    if MatchesEmailPattern(t) {
      SameDelimitersPattern(t, ToLower(t));
    }
    if MatchesEmailPattern(ToLower(t)) {
      SameDelimitersPattern(ToLower(t), t);
    }
  }

  /** Sanitizing neither makes a valid address invalid nor an invalid one valid. */
  lemma SanitizeEmailKeepsValidity(s: string)
    ensures SanitizeEmail(Str(s)).Ok?
    ensures IsValidEmail(Str(SanitizeEmail(Str(s)).value)) == IsValidEmail(Str(s))
  {
    var r := ToLower(Trim(s));
    assert SanitizeEmail(Str(s)).value == r;
    TrimOfTrimmed(r);
    PatternIgnoresCase(Trim(s));
  }

  // ---------------------------------------------------------- scenarios

  /** For a string without surrounding white space, validity is the pattern itself. */
  lemma IsValidEmailOfTrimmed(t: string)
    requires IsTrimmed(t)
    ensures IsValidEmail(Str(t)) == MatchesEmailPattern(t)
  {
    TrimOfTrimmed(t);
  }

  lemma PatternOfParts(local: string, host: string, tld: string)
    requires IsAddressRun(local) && IsAddressRun(host) && IsAddressRun(tld)
    ensures MatchesEmailPattern(local + "@" + host + "." + tld)
  {
    var t := local + "@" + host + "." + tld;
    var d := host + "." + tld;
    assert t[|local|] == '@' && t[..|local|] == local && t[|local| + 1..] == d;
    assert d[|host|] == '.' && d[..|host|] == host && d[|host| + 1..] == tld;
  }

  /** `host.tld` made of two runs of `[^\s@]` has no `@`. */
  lemma NoAtInDomain(host: string, tld: string)
    requires IsAddressRun(host) && IsAddressRun(tld)
    ensures '@' !in host + "." + tld
  {
    AddressRunFacts(host);
    AddressRunFacts(tld);
    var d := host + "." + tld;
    forall k | 0 <= k < |d| ensures d[k] != '@' {
      if k < |host| {
        assert d[k] == host[k];
      } else if k > |host| {
        assert d[k] == tld[k - |host| - 1];
      }
    }
  }

  /** `local@host.tld` made of runs of `[^\s@]` neither starts nor ends with white space. */
  lemma PartsTrimmed(local: string, host: string, tld: string)
    requires IsAddressRun(local) && IsAddressRun(tld)
    ensures IsTrimmed(local + "@" + host + "." + tld)
  {
    var t := local + "@" + host + "." + tld;
    assert t[0] == local[0] && IsAddressChar(local[0]);
    assert t[|t| - 1] == tld[|tld| - 1] && IsAddressChar(tld[|tld| - 1]);
  }

  lemma SplitOfParts(local: string, host: string, tld: string)
    requires IsAddressRun(local) && IsAddressRun(host) && IsAddressRun(tld)
    ensures Split(local + "@" + host + "." + tld, '@') == [local, host + "." + tld]
  {
    var d := host + "." + tld;
    AddressRunFacts(local);
    NoAtInDomain(host, tld);
    assert local + "@" + host + "." + tld == local + "@" + d;
    SplitAroundAt(local, d);
  }

  /** `local@host.tld` with three non-empty runs of `[^\s@]` matches and is split into `local` and `host.tld`. */
  lemma AcceptsTrimmedParts(local: string, host: string, tld: string)
    requires IsAddressRun(local) && IsAddressRun(host) && IsAddressRun(tld)
    ensures var t := local + "@" + host + "." + tld;
      IsTrimmed(t) && MatchesEmailPattern(t) && Split(t, '@') == [local, host + "." + tld]
  {
    PatternOfParts(local, host, tld);
    PartsTrimmed(local, host, tld);
    SplitOfParts(local, host, tld);
  }

  /** The value of `getEmailDomain` on a valid address. */
  lemma GetEmailDomainOfValid(s: string)
    requires IsValidEmail(Str(s))
    ensures |Split(Trim(s), '@')| == 2
    ensures GetEmailDomain(Str(s)) == Some(Split(Trim(s), '@')[1])
  {
    IsValidEmailIff(s);
  }

  /** `local@host.tld` with three non-empty runs of `[^\s@]` is accepted, and its domain is `host.tld`. */
  lemma AcceptsAddress(t: string, local: string, host: string, tld: string)
    requires t == local + "@" + host + "." + tld
    requires IsAddressRun(local) && IsAddressRun(host) && IsAddressRun(tld)
    ensures IsValidEmail(Str(t))
    ensures GetEmailDomain(Str(t)) == Some(host + "." + tld)
  {
    AcceptsTrimmedParts(local, host, tld);
    IsValidEmailOfTrimmed(t);
    GetEmailDomainOfValid(t);
    TrimOfTrimmed(t);
  }

  /** A match has an `@` and a `.`, does not start with `@` and has no white space. */
  lemma MatchFacts(t: string)
    ensures MatchesEmailPattern(t) ==> '@' in t && '.' in t && t[0] != '@' && NoWs(t)
  {
    if MatchesEmailPattern(t) {
      var i :| 0 < i < |t| && t[i] == '@' && IsAddressRun(t[..i]) && MatchesDomainPattern(t[i + 1..]);
      var d := t[i + 1..];
      var j :| 0 < j < |d| - 1 && d[j] == '.' && IsAddressRun(d[..j]) && IsAddressRun(d[j + 1..]);
      assert t[i + 1 + j] == '.';
      assert t[..i][0] == t[0];
      MatchAtImpliesWellFormed(t, i);
    }
  }

  /** A string without `@` is rejected. */
  lemma RejectsWithoutAt(s: string)
    requires '@' !in s
    ensures !IsValidEmail(Str(s)) && GetEmailDomain(Str(s)) == None
  {
    TrimKeepsChars(s, '@');
    MatchFacts(Trim(s));
  }

  /** A string in which no `.` comes after an `@` has no dotted domain and is rejected. */
  lemma RejectsWithoutDot(s: string)
    requires forall a, b | 0 <= a < b < |s| :: !(s[a] == '@' && s[b] == '.')
    ensures !IsValidEmail(Str(s)) && GetEmailDomain(Str(s)) == None
  {
    var t := Trim(s);
    if MatchesEmailPattern(t) {
      var i :| 0 < i < |t| && t[i] == '@' && IsAddressRun(t[..i]) && MatchesDomainPattern(t[i + 1..]);
      var d := t[i + 1..];
      var j :| 0 < j < |d| - 1 && d[j] == '.' && IsAddressRun(d[..j]) && IsAddressRun(d[j + 1..]);
      TrimIsSlice(s);
    }
  }

  /** A string whose first character other than white space is `@`, at `k`, has an empty local part and is rejected. */
  lemma RejectsLeadingAt(s: string, k: nat)
    requires k < |s| && s[k] == '@' && AllWs(s[..k])
    ensures !IsValidEmail(Str(s)) && GetEmailDomain(Str(s)) == None
  {
    TrimStartsAt(s, k);
    MatchFacts(Trim(s));
  }

  /** A string with white space at `k` between characters other than white space at `i` and `j` is rejected. */
  lemma RejectsInnerWs(s: string, i: nat, k: nat, j: nat)
    requires i < k < j < |s| && !IsWs(s[i]) && IsWs(s[k]) && !IsWs(s[j])
    ensures !IsValidEmail(Str(s)) && GetEmailDomain(Str(s)) == None
  {
    TrimKeepsNonWs(s, i);
    TrimKeepsNonWs(s, j);
    TrimIsSlice(s);
    assert Trim(s)[k - LeadingWs(s)] == s[k];
    MatchFacts(Trim(s));
  }

  /** Padding with white space changes neither validity nor the domain. */
  lemma GetEmailDomainIgnoresPadding(pre: string, s: string, post: string)
    requires AllWs(pre) && AllWs(post)
    ensures GetEmailDomain(Str(pre + s + post)) == GetEmailDomain(Str(s))
  {
    TrimIgnoresPadding(pre, s, post);
  }

  /** Padding with white space does not change the sanitized address. */
  lemma SanitizeEmailIgnoresPadding(pre: string, s: string, post: string)
    requires AllWs(pre) && AllWs(post)
    ensures SanitizeEmail(Str(pre + s + post)) == SanitizeEmail(Str(s))
  {
    TrimIgnoresPadding(pre, s, post);
  }

  lemma ToLowerIs(t: string, expected: string)
    requires |expected| == |t| && forall k | 0 <= k < |t| :: expected[k] == ToLowerChar(t[k])
    ensures ToLower(t) == expected
  {
  }

  /** Sanitizing a string without surrounding white space lower-cases it position by position. */
  lemma SanitizesTo(t: string, expected: string)
    requires IsTrimmed(t)
    requires |expected| == |t| && forall k | 0 <= k < |t| :: expected[k] == ToLowerChar(t[k])
    ensures SanitizeEmail(Str(t)) == Ok(expected)
  {
    TrimOfTrimmed(t);
    ToLowerIs(t, expected);
  }

  // The scenarios of the unit tests. The spelling and run lemmas split each
  // address literal into the pieces the general lemmas take.

  lemma ExampleComSpelling()
    ensures "user@example.com" == "user" + "@" + "example" + "." + "com"
    ensures "user+tag@example.com" == "user+tag" + "@" + "example" + "." + "com"
    ensures "example.com" == "example" + "." + "com"
  {
  }

  lemma DomainCoUkSpelling()
    ensures "test.user@domain.co.uk" == "test.user" + "@" + "domain" + "." + "co.uk"
    ensures "test@domain.co.uk" == "test" + "@" + "domain" + "." + "co.uk"
    ensures "domain.co.uk" == "domain" + "." + "co.uk"
  {
  }

  lemma ExampleComRuns()
    ensures IsAddressRun("user") && IsAddressRun("user+tag") && IsAddressRun("example") && IsAddressRun("com")
  {
  }

  lemma DomainCoUkRuns()
    ensures IsAddressRun("test.user") && IsAddressRun("test") && IsAddressRun("domain") && IsAddressRun("co.uk")
  {
  }

  lemma PlainAddressScenario()
    ensures IsValidEmail(Str("user@example.com"))
    ensures GetEmailDomain(Str("user@example.com")) == Some("example.com")
  {
    ExampleComSpelling();
    ExampleComRuns();
    AcceptsAddress("user@example.com", "user", "example", "com");
  }

  lemma DottedLocalPartScenario()
    ensures IsValidEmail(Str("test.user@domain.co.uk"))
    ensures GetEmailDomain(Str("test.user@domain.co.uk")) == Some("domain.co.uk")
  {
    DomainCoUkSpelling();
    DomainCoUkRuns();
    AcceptsAddress("test.user@domain.co.uk", "test.user", "domain", "co.uk");
  }

  lemma TaggedLocalPartScenario()
    ensures IsValidEmail(Str("user+tag@example.com"))
  {
    ExampleComSpelling();
    ExampleComRuns();
    AcceptsAddress("user+tag@example.com", "user+tag", "example", "com");
  }

  lemma SubdomainScenario()
    ensures GetEmailDomain(Str("test@domain.co.uk")) == Some("domain.co.uk")
  {
    DomainCoUkSpelling();
    DomainCoUkRuns();
    AcceptsAddress("test@domain.co.uk", "test", "domain", "co.uk");
  }

  lemma PaddedSpelling()
    ensures "  user@example.com  " == "  " + "user@example.com" + "  "
    ensures "  USER@EXAMPLE.COM  " == "  " + "USER@EXAMPLE.COM" + "  "
    ensures AllWs("  ")
  {
  }

  lemma PaddedAddressScenario()
    ensures IsValidEmail(Str("  user@example.com  "))
    ensures GetEmailDomain(Str("  user@example.com  ")) == Some("example.com")
  {
    PlainAddressScenario();
    PaddedSpelling();
    GetEmailDomainIgnoresPadding("  ", "user@example.com", "  ");
    IsValidEmailIgnoresPadding("  ", "user@example.com", "  ");
  }

  lemma MissingAtScenario()
    ensures !IsValidEmail(Str("invalid")) && GetEmailDomain(Str("invalid")) == None
  {
    RejectsWithoutAt("invalid");
  }

  lemma MissingDomainScenario()
    ensures !IsValidEmail(Str("user@")) && GetEmailDomain(Str("user@")) == None
  {
    RejectsWithoutDot("user@");
  }

  lemma MissingLocalPartScenario()
    ensures !IsValidEmail(Str("@example.com"))
  {
    RejectsLeadingAt("@example.com", 0);
  }

  lemma InnerSpaceScenario()
    ensures !IsValidEmail(Str("user @example.com"))
  {
    RejectsInnerWs("user @example.com", 3, 4, 5);
  }

  lemma EmptyStringScenario()
    ensures !IsValidEmail(Str("")) && GetEmailDomain(Str("")) == None
  {
    RejectsWithoutAt("");
  }

  lemma NonStringScenarios()
    ensures !IsValidEmail(Null) && !IsValidEmail(Undefined) && !IsValidEmail(Num(123.0)) && !IsValidEmail(Obj)
    ensures SanitizeEmail(Null) == Throw(JsError(TypeError, "Email must be a string"))
    ensures SanitizeEmail(Num(123.0)) == Throw(JsError(TypeError, "Email must be a string"))
    ensures SanitizeEmail(Obj) == Throw(JsError(TypeError, "Email must be a string"))
  {
  }

  lemma UpperCaseLowered()
    ensures SanitizeEmail(Str("USER@EXAMPLE.COM")) == Ok("user@example.com")
  {
    SanitizesTo("USER@EXAMPLE.COM", "user@example.com");
  }

  lemma UpperCasePaddedScenario()
    ensures SanitizeEmail(Str("  USER@EXAMPLE.COM  ")) == Ok("user@example.com")
  {
    UpperCaseLowered();
    PaddedSpelling();
    SanitizeEmailIgnoresPadding("  ", "USER@EXAMPLE.COM", "  ");
  }

  lemma MixedCaseScenario()
    ensures SanitizeEmail(Str("Test@Domain.Com")) == Ok("test@domain.com")
  {
    SanitizesTo("Test@Domain.Com", "test@domain.com");
  }

  lemma PreservedCharactersScenario()
    ensures SanitizeEmail(Str("user+tag@example.com")) == Ok("user+tag@example.com")
  {
    SanitizesTo("user+tag@example.com", "user+tag@example.com");
  }
}
