/** modUserForm.ValidateForm: the guard chain that runs before a modified
    user is saved. Each failed guard shows its message and stops; the
    message box and the focus change become the returned message. */
module UserForms {
  import opened Text

  datatype Validation = Accepted | Rejected(message: string)

  const UsernameRequired := "Username is required"
  const UsernameTooShort := "Username must be at least 3 characters"
  const PasswordRequired := "Password is required"
  const RoleRequired := "Role is required"

  /** The shortest username accepted, counted in UTF-16 code units before
      any trimming. */
  const MinUsernameLength := 3

  /** The four guards in source order; the first that fails decides. */
  function ValidateForm(username: string, password: string, repeatedPassword: string, role: string): (r: Validation)
    ensures r == Accepted <==> !IsBlank(username) && Utf16Length(username) >= MinUsernameLength
                               && !IsBlank(password) && !IsBlank(role)
    ensures r == Rejected(UsernameRequired) <==> IsBlank(username)
    ensures r == Rejected(UsernameTooShort) <==> !IsBlank(username) && Utf16Length(username) < MinUsernameLength
    ensures r == Rejected(PasswordRequired) <==>
              !IsBlank(username) && Utf16Length(username) >= MinUsernameLength && IsBlank(password)
    ensures r == Rejected(RoleRequired) <==>
              !IsBlank(username) && Utf16Length(username) >= MinUsernameLength && !IsBlank(password) && IsBlank(role)
    ensures r.Rejected? ==> r.message in {UsernameRequired, UsernameTooShort, PasswordRequired, RoleRequired}
  {
    if IsBlank(username) then Rejected(UsernameRequired)
    else if Utf16Length(username) < MinUsernameLength then Rejected(UsernameTooShort)
    else if IsBlank(password) then Rejected(PasswordRequired)
    else if IsBlank(role) then Rejected(RoleRequired)
    else Accepted
  }

  /** The repeated password is never compared: any value gives the same
      answer, so a mismatch between the two password fields is accepted. */
  lemma RepeatedPasswordIgnored(username: string, password: string, repeated1: string, repeated2: string, role: string)
    ensures ValidateForm(username, password, repeated1, role) == ValidateForm(username, password, repeated2, role)
  {
  }

  /** A username of three white-space characters is refused as missing, but
      one of three characters padded with spaces passes the length check,
      because the length is taken before trimming. */
  lemma LengthCountsPadding()
    ensures ValidateForm(" ab", "pw", "", "Admin") == Accepted
    ensures ValidateForm("   ", "pw", "", "Admin") == Rejected(UsernameRequired)
  {
    assert " ab"[1] == 'a' && !IsBlank(" ab");
    assert "pw"[0] == 'p' && !IsBlank("pw");
    assert "Admin"[0] == 'A' && !IsBlank("Admin");
    assert forall i :: 0 <= i < 3 ==> "   "[i] == ' ';
  }

  /** A character outside the Basic Multilingual Plane counts twice: a
      two-character name made of one such letter and one ASCII letter passes
      the length check. */
  lemma SurrogatePairCountsTwice()
    ensures ValidateForm("\U{1D49C}b", "pw", "", "Admin") == Accepted
  {
    var u := "\U{1D49C}b";
    assert u[0] as int == 0x1D49C && u[1] == 'b' && |u| == 2;
    assert u[1..] == "b" && Utf16Length("b") == 1;
    assert !IsBlank(u) by { assert !IsWhiteSpace(u[1]); }
    assert "pw"[0] == 'p' && !IsBlank("pw");
    assert "Admin"[0] == 'A' && !IsBlank("Admin");
  }
}
