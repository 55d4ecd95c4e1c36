/** Model of errors.go: the typed failures a validator reports and the
    messages they render. None of them carries password or key material. */
module Errors {
  import opened Fmt

  const SYNTAX_ERROR_LEAD: string := "Syntax error: "
  const ALGORITHM_ERROR_LEAD: string := "Algorithm error: "
  const MISMATCH_MESSAGE: string := "gopherbouncealg: Passwords do not match"
  const VERSION_BODY_LEAD: string := "Invalid algorithm version, expected "
  const GOT_LEAD: string := ", got "

  // ---------------------------------------------------------------------------
  // SyntaxError
  // ---------------------------------------------------------------------------

  /** The encoded hash does not have the expected syntax; cause says why. */
  datatype SyntaxError = SyntaxError(cause: string)
  {
    /** The message: the fixed lead followed by the cause, which can be read
        back from the message. */
    function Error(): (s: string)
      ensures |s| == |SYNTAX_ERROR_LEAD| + |cause|
      ensures s[..|SYNTAX_ERROR_LEAD|] == SYNTAX_ERROR_LEAD
      ensures s[|SYNTAX_ERROR_LEAD|..] == cause
    {
      SYNTAX_ERROR_LEAD + cause
    }

    /** The string form is the message. */
    function String(): (s: string)
      ensures s == Error()
    {
      Error()
    }
  }

  function NewSyntaxError(cause: string): (e: SyntaxError)
    ensures e.cause == cause
  {
    SyntaxError(cause)
  }

  /** The message determines the cause: distinct syntax errors never render
      alike. */
  lemma SyntaxErrorMessageInjective(a: SyntaxError, b: SyntaxError)
    requires a.Error() == b.Error()
    ensures a == b
  {
    assert a.cause == a.Error()[|SYNTAX_ERROR_LEAD|..];
  }

  // ---------------------------------------------------------------------------
  // VersionError
  // ---------------------------------------------------------------------------

  /** The hash was produced by an algorithm version this library does not
      support. Expected lists the supported versions, Got the one found. */
  datatype VersionError = VersionError(Prefix: string, Expected: seq<string>, Got: string)
  {
    /** The part of the message after the prefix. A single expected version
        is printed the way `%s` prints a one-element slice, in brackets; any
        other number of versions (none included) is joined with ", ". */
    function Body(): (s: string)
      ensures |s| >= |VERSION_BODY_LEAD| + |GOT_LEAD| + |Got|
      ensures s[..|VERSION_BODY_LEAD|] == VERSION_BODY_LEAD
      ensures s[|s| - |GOT_LEAD| - |Got|..] == GOT_LEAD + Got
    {
      if |Expected| == 1 then
        VERSION_BODY_LEAD + FormatStrings(Expected) + GOT_LEAD + Got
      else
        VERSION_BODY_LEAD + "one of " + Join(Expected, ", ") + GOT_LEAD + Got
    }

    /** The message: the prefix (or "Algorithm error" when it is empty),
        a colon, and the body, which always ends with the version found. */
    function Error(): (s: string)
      ensures Prefix == "" ==> s == ALGORITHM_ERROR_LEAD + Body()
      ensures Prefix != "" ==> s == Prefix + ": " + Body()
      ensures |s| >= |Got| && s[|s| - |Got|..] == Got
    {
      if Prefix == "" then ALGORITHM_ERROR_LEAD + Body() else Prefix + ": " + Body()
    }
  }

  function NewVersionError(prefix: string, expected: seq<string>, got: string): (e: VersionError)
    ensures e.Prefix == prefix && e.Expected == expected && e.Got == got
  {
    VersionError(prefix, expected, got)
  }

  /** With one expected version the message names it in brackets. */
  lemma VersionErrorOneExpected(e: VersionError)
    requires |e.Expected| == 1
    ensures e.Body() == "Invalid algorithm version, expected [" + e.Expected[0] + "], got " + e.Got
  {
    assert e.Expected == [e.Expected[0]];
    FormatSingleString(e.Expected[0]);
  }

  /** With no expected version the list between "one of" and ", got" is
      empty. */
  lemma VersionErrorNoneExpected(e: VersionError)
    requires e.Expected == []
    ensures e.Body() == "Invalid algorithm version, expected one of , got " + e.Got
  {
  }

  /** With several expected versions they are listed separated by ", ";
      adding one more version appends ", " and that version to the list. */
  lemma {:induction false} VersionErrorMoreExpected(prefix: string, expected: seq<string>, extra: string, got: string)
    requires |expected| >= 1
    ensures VersionError(prefix, expected + [extra], got).Body()
         == "Invalid algorithm version, expected one of " + Join(expected, ", ") + ", " + extra + ", got " + got
  {
    var e := VersionError(prefix, expected + [extra], got);
    JoinAppend(expected, extra, ", ");
    assert e.Body() == VERSION_BODY_LEAD + "one of " + (Join(expected, ", ") + ", " + extra) + GOT_LEAD + got;
  }

  // ---------------------------------------------------------------------------
  // PasswordMismatchError
  // ---------------------------------------------------------------------------

  /** The candidate password does not match the hash. It has no fields, so
      it cannot reveal anything about either. */
  datatype PasswordMismatchError = PasswordMismatchError
  {
    function Error(): (s: string)
      ensures s == MISMATCH_MESSAGE
    {
      MISMATCH_MESSAGE
    }
  }

  function NewPasswordMismatchError(): (e: PasswordMismatchError)
    ensures e.Error() == MISMATCH_MESSAGE
  {
    PasswordMismatchError
  }

  /** Every mismatch error renders the same text, whatever the password or
      the hash that failed to match. */
  lemma MismatchCarriesNothing(a: PasswordMismatchError, b: PasswordMismatchError)
    ensures a == b && a.Error() == b.Error()
  {
  }
}
