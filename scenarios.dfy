/**
 * Concrete inputs checked against the validation rules.
 */
module Scenarios {
  import opened Wrappers
  import opened Text
  import opened Validation

  const StrongPassword: string := "Str0ng!Pass"

  /** Its first rune is not white space. */
  lemma StrongPasswordNotBlank()
    ensures !IsBlank(StrongPassword)
  {
    var p := StrongPassword;
    assert !IsSpace(p[0]);
    TrimSpaceEmptyIffAllSpace(p);
  }

  /** All its runes are ASCII, so its byte length is its eleven runes. */
  lemma StrongPasswordByteLength()
    ensures ByteLen(StrongPassword) == 11
  {
    var p := StrongPassword;
    assert IsAscii(p);
  }

  /** `S`, `t`, `0` and `!` supply the four classes. */
  lemma StrongPasswordHasAllClasses()
    ensures HasAllClasses(StrongPassword)
  {
    var p := StrongPassword;
    assert IsUpper(p[0]) && IsLower(p[1]) && IsDigit(p[3]) && IsSpecial(p[6]);
  }

  /** A mixed-class password of eleven ASCII runes passes the strength rule. */
  lemma StrongPasswordPasses()
    ensures !IsBlank(StrongPassword)
    ensures PasswordCheck(StrongPassword) == None
  {
    StrongPasswordNotBlank();
    StrongPasswordByteLength();
    StrongPasswordHasAllClasses();
  }

  /** Long enough but with no upper-case letter, digit or special rune: the class error. */
  lemma LowerCaseOnlyFails()
    ensures PasswordCheck("password") == Some(PasswordClasses)
  {
    var p := "password";
    assert IsAscii(p);
    assert !HasUpper(p) by {
      forall i | 0 <= i < |p| ensures !IsUpper(p[i]) {}
    }
  }

  /** Every class present but too short: the length error comes first. */
  lemma ShortPasswordFails()
    ensures PasswordCheck("Ab1!") == Some(PasswordLength)
  {
    var p := "Ab1!";
    assert IsAscii(p);
  }

  /** A conventional address is accepted by the recogniser. */
  lemma AliceEmailAccepted()
    ensures IsValidEmail("alice@example.com")
  {
    var s := "alice@example.com";
    assert AllLocal(s[..5]) by {
      assert s[..5] == "alice";
    }
    assert AllDomain(s[6..13]) by {
      assert s[6..13] == "example";
    }
    assert AllLetters(s[14..]) by {
      assert s[14..] == "com";
    }
    RecogniserComplete(s, 5, 13);
  }

  /** A two-rune name is below the three-byte minimum; a multi-byte name may pass with fewer runes. */
  lemma NameLengths()
    ensures !NameLengthOk("Al")
    ensures NameLengthOk("Zoë")
  {
    assert IsAscii("Al");
  }
}
