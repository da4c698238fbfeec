/** The validation service: the text-field character check, its error
    message template and the duplicate-registration test. The e-mail syntax
    check (PHP's `filter_var` with `FILTER_VALIDATE_EMAIL`) is not part of this
    model; callers receive it as a predicate parameter. */
module ValidationService {
  import opened Tables
  import DatabaseService

  /** PCRE's `\s` outside UTF mode: space, tab, LF, VT, FF and CR. */
  predicate IsPcreSpace(ch: char) {
    ch == ' ' || ch == '\t' || ch == '\n' || ch == '\U{0B}' || ch == '\U{0C}' || ch == '\r'
  }

  /** A member of the class `[a-zA-Z0-9\s.\-]`. Outside UTF mode the pattern
      sees bytes, and no byte of a non-ASCII character is in the class. */
  predicate IsAllowedChar(ch: char) {
    ('a' <= ch <= 'z') || ('A' <= ch <= 'Z') || ('0' <= ch <= '9')
      || IsPcreSpace(ch) || ch == '.' || ch == '-'
  }

  /** `validateTextField`: the pattern `^[a-zA-Z0-9\s.\-]+$`, read as "one
      class character, then the end of the text or another match". Because
      `\n` is in the class, `$` matching before a final newline adds nothing. */
  predicate ValidateTextField(text: string)
    ensures ValidateTextField(text) ==> |text| > 0 && forall i :: 0 <= i < |text| ==> IsAllowedChar(text[i])
    decreases |text|
  {
    |text| >= 1 && IsAllowedChar(text[0]) && (|text| == 1 || ValidateTextField(text[1..]))
  }

  /** The pattern accepts exactly the non-empty texts made of class characters. */
  lemma {:induction false} ValidateTextFieldIff(text: string)
    ensures ValidateTextField(text) <==>
      |text| > 0 && forall i :: 0 <= i < |text| ==> IsAllowedChar(text[i])
    decreases |text|
  {
    if |text| > 1 {
      ValidateTextFieldIff(text[1..]);
      if forall i :: 0 <= i < |text| ==> IsAllowedChar(text[i]) {
        assert forall i :: 0 <= i < |text[1..]| ==> IsAllowedChar(text[1..][i]) by {
          forall i | 0 <= i < |text[1..]|
            ensures IsAllowedChar(text[1..][i])
          {
            assert text[1..][i] == text[i + 1];
          }
        }
      }
      if ValidateTextField(text) {
        forall i | 0 <= i < |text|
          ensures IsAllowedChar(text[i])
        {
          if i > 0 {
            assert text[i] == text[1..][i - 1];
          }
        }
      }
    }
  }

  /** The empty text is rejected: `+` demands at least one character. */
  lemma EmptyTextRejected()
    ensures !ValidateTextField("")
  {
  }

  /** One character outside the class (a comma, `#`, an apostrophe, any
      non-ASCII letter, ...) anywhere rejects the whole text. */
  lemma ForbiddenCharRejected(text: string, i: int)
    requires 0 <= i < |text|
    requires !IsAllowedChar(text[i])
    ensures !ValidateTextField(text)
  {
    ValidateTextFieldIff(text);
  }

  /** The comma named in the comment on `validateTextField` is not in the class, and
      neither are `#`, `'` or any non-ASCII character. */
  lemma PunctuationNotAllowed(ch: char)
    requires ch == ',' || ch == '#' || ch == '\'' || ch >= '\U{80}'
    ensures !IsAllowedChar(ch)
  {
  }

  /** Validity is a per-character property, so it survives concatenation. */
  lemma ValidTextConcat(a: string, b: string)
    requires ValidateTextField(a) && ValidateTextField(b)
    ensures ValidateTextField(a + b)
  {
    ValidateTextFieldIff(a);
    ValidateTextFieldIff(b);
    ValidateTextFieldIff(a + b);
    forall i | 0 <= i < |a + b|
      ensures IsAllowedChar((a + b)[i])
    {
      if i >= |a| {
        assert (a + b)[i] == b[i - |a|];
      }
    }
  }

  /** A name with a `#` in it is refused. */
  lemma HashInNameRejected()
    ensures !ValidateTextField("Anne-Marie O.#1")
  {
    var s := "Anne-Marie O.#1";
    assert s[13] == '#';
    ForbiddenCharRejected(s, 13);
  }

  /** `getTextFieldErrorMessage`: one template for every field. */
  function GetTextFieldErrorMessage(fieldName: string): (m: string)
    ensures |m| > |fieldName| + 4 && m[..4] == "The " && m[4..4 + |fieldName|] == fieldName
  {
    "The " + fieldName + " field contains invalid characters. Only letters, numbers, spaces, dots, and hyphens are allowed."
  }

  /** The template, and that the message names its field unambiguously. */
  lemma TextFieldErrorMessageNamesField(a: string, b: string)
    ensures GetTextFieldErrorMessage(a)[..4] == "The "
    ensures GetTextFieldErrorMessage(a)[4..4 + |a|] == a
    ensures GetTextFieldErrorMessage(a)[4 + |a|..] ==
      " field contains invalid characters. Only letters, numbers, spaces, dots, and hyphens are allowed."
    ensures GetTextFieldErrorMessage(a) == GetTextFieldErrorMessage(b) <==> a == b
  {
    var ma := GetTextFieldErrorMessage(a);
    var mb := GetTextFieldErrorMessage(b);
    assert ma[4..4 + |a|] == a;
    if ma == mb {
      assert |a| == |b|;
      assert mb[4..4 + |b|] == b;
    }
  }

  /** `checkDuplicateRegistration`: delegates to the store's existence test. */
  function CheckDuplicateRegistration(regs: seq<Registration>, email: string, eventDate: string): (b: bool)
    ensures b <==> exists x :: x in regs && x.email == email && x.eventDate == eventDate
  {
    DatabaseService.RegistrationExists(regs, email, eventDate)
  }
}
