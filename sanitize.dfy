/**
  The three normalisers of the sanitizer.  Each is total: where the original
  catches an exception and answers `undefined`, the model answers `None`.
*/
module Sanitize {
  import opened Wrappers
  import opened Js

  /**
    Accepts an address only when the raw, untrimmed text contains both "@"
    and ".com" (case-sensitive); the accepted address is then trimmed and
    lower-cased.
  */
  function SanitizeEmail(email: string): (r: Option<string>)
    ensures r.Some? <==> (exists i :: OccursAt(email, "@", i)) && (exists i :: OccursAt(email, ".com", i))
  {
    IncludesIff(email, "@");
    IncludesIff(email, ".com");
    if !Includes(email, "@") || !Includes(email, ".com") then None
    else Some(ToLower(Trim(email)))
  }

  /** An accepted address is the lower-cased text with its surrounding whitespace cut off. */
  lemma SanitizeEmailNormalises(email: string)
    requires SanitizeEmail(email).Some?
    ensures IsTrimOf(SanitizeEmail(email).value, ToLower(email))
    ensures HasNoUpper(SanitizeEmail(email).value)
  {
    TrimToLowerCommute(email);
    TrimSpec(ToLower(email));
    ToLowerIdempotent(Trim(email));
  }

  /** A word that has no whitespace and no upper-case letter survives trimming and lower-casing. */
  lemma KeptByNormalising(s: string, w: string)
    requires (exists i :: OccursAt(s, w, i)) && w != [] && NoWhitespace(w) && ToLower(w) == w
    ensures exists j :: OccursAt(ToLower(Trim(s)), w, j)
  {
    var i :| OccursAt(s, w, i);
    TrimKeepsWord(s, w, i);
    var j :| OccursAt(Trim(s), w, j);
    ToLowerKeepsWord(Trim(s), w, j);
  }

  /** Both substring tests still pass on the normalised address. */
  lemma NormalisedEmailPassesCheck(email: string)
    requires (exists i :: OccursAt(email, "@", i)) && (exists i :: OccursAt(email, ".com", i))
    ensures Includes(ToLower(Trim(email)), "@") && Includes(ToLower(Trim(email)), ".com")
  {
    assert ToLower("@") == "@" && NoWhitespace("@");
    assert ToLower(".com") == ".com" && NoWhitespace(".com");
    KeptByNormalising(email, "@");
    KeptByNormalising(email, ".com");
    IncludesIff(ToLower(Trim(email)), "@");
    IncludesIff(ToLower(Trim(email)), ".com");
  }

  /** Sanitizing an already sanitized address changes nothing. */
  lemma SanitizeEmailIdempotent(email: string)
    requires SanitizeEmail(email).Some?
    ensures SanitizeEmail(SanitizeEmail(email).value) == SanitizeEmail(email)
  {
    var v := ToLower(Trim(email));
    NormalisedEmailPassesCheck(email);
    TrimSpec(email);
    ToLowerTrimmed(Trim(email));
    TrimOfTrimmed(v);
    ToLowerIdempotent(Trim(email));
  }

  /**
    Trims, splits on the single character ' ' and keeps the first two
    parts, provided the second exists and has exactly ten characters.
  */
  function SanitizePhoneNo(phoneNo: string): (r: Option<seq<string>>)
    ensures r.Some? ==> |r.value| == 2 && |r.value[1]| == 10
  {
    var parts := Split(Trim(phoneNo), ' ');
    // a missing second part is `undefined`; reading its length throws
    if |parts| < 2 then None
    else if |parts[1]| != 10 then None
    else Some([parts[0], parts[1]])
  }

  /**
    An accepted number is the first two space-free parts of the trimmed
    text, followed there by nothing or by another space; text without a
    space is refused.
  */
  lemma SanitizePhoneNoParts(phoneNo: string)
    ensures ' ' !in Trim(phoneNo) ==> SanitizePhoneNo(phoneNo).None?
    ensures SanitizePhoneNo(phoneNo).Some? ==>
      var parts := SanitizePhoneNo(phoneNo).value;
      ' ' !in parts[0] && ' ' !in parts[1] &&
      exists rest :: Trim(phoneNo) == parts[0] + [' '] + parts[1] + rest && (rest == [] || rest[0] == ' ')
  {
    var t := Trim(phoneNo);
    SplitSpec(t, ' ');
    if |Split(t, ' ')| >= 2 {
      SplitFirstTwo(t, ' ');
    }
  }

  /**
    Once the trimmed text has a space, it reads as a + ' ' + b + rest with no
    space in a or b and rest empty or starting with a space; the outcome
    then depends on |b| alone.  A double space gives an empty b and fails.
  */
  lemma SanitizePhoneNoTokens(phoneNo: string, a: string, b: string, rest: string)
    requires Trim(phoneNo) == a + [' '] + b + rest
    requires ' ' !in a && ' ' !in b && (rest == [] || rest[0] == ' ')
    ensures SanitizePhoneNo(phoneNo) == if |b| == 10 then Some([a, b]) else None
  {
    assert a + [' '] + b + rest == a + [' '] + (b + rest);
    SplitCons(a, b + rest, ' ');
    if rest == [] {
      assert b + rest == b;
      SplitNoSep(b, ' ');
    } else {
      assert b + rest == b + [' '] + rest[1..];
      SplitCons(b, rest[1..], ' ');
    }
  }

  /**
    Writing the two parts back with one space between them reproduces them,
    unless the number ends in whitespace other than a space (a tab, say),
    which the split keeps and the trim of the joined text would cut.
  */
  lemma SanitizePhoneNoRoundTrip(phoneNo: string)
    requires SanitizePhoneNo(phoneNo).Some?
    requires !IsWhitespace(SanitizePhoneNo(phoneNo).value[1][9])
    ensures SanitizePhoneNo(Join(SanitizePhoneNo(phoneNo).value, ' ')) == SanitizePhoneNo(phoneNo)
  {
    var parts := SanitizePhoneNo(phoneNo).value;
    var a, b := parts[0], parts[1];
    SanitizePhoneNoParts(phoneNo);
    TrimSpec(phoneNo);
    var rest :| Trim(phoneNo) == a + [' '] + b + rest && (rest == [] || rest[0] == ' ');
    assert a != [];
    var s := a + [' '] + b;
    assert Join(parts, ' ') == s by { assert parts[1..] == [b]; }
    assert s[0] == a[0] && s[|s| - 1] == b[9];
    TrimOfTrimmed(s);
    assert s == a + [' '] + b + [];
    SanitizePhoneNoTokens(s, a, b, []);
  }

  /** Fails only for an absent name; otherwise trims, keeping the letter case. */
  function SanitizeName(name: Option<string>): (r: Option<string>)
    ensures r.Some? <==> name.Some?
  {
    match name
    case None => None
    case Some(n) => Some(Trim(n))
  }

  /** A present name comes back with its surrounding whitespace cut off and nothing else changed. */
  lemma SanitizeNameTrims(name: string)
    ensures SanitizeName(Some(name)).Some?
    ensures IsTrimOf(SanitizeName(Some(name)).value, name)
  {
    TrimSpec(name);
  }

  lemma SanitizeNameIdempotent(name: Option<string>)
    ensures SanitizeName(SanitizeName(name)) == SanitizeName(name)
  {
    if name.Some? {
      TrimIdempotent(name.value);
    }
  }

  /** Names keep their case: only the surrounding whitespace goes. */
  lemma SanitizeNameKeepsCase()
    ensures SanitizeName(Some("  Bob ")) == Some("Bob")
  {
    var s, r := "  Bob ", "Bob";
    assert s[2..2 + |r|] == r && s[..2] == "  " && s[2 + |r|..] == " ";
    TrimUnique(r, s);
  }
}
