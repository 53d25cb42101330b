/**
 The form-validation rule of the reactive view-model: a (user name, password)
 pair is classified into a code from 0 to 4 and an optional error kind, and the
 `formValidation` stream applies that rule to every pair it is handed.

 The password-strength checker `checkString` lives outside this model; it is a
 parameter of every member here, a total function from the password to the
 pair (tier, strong) it reports.
 */
module FormValidation {
  import opened Wrappers

  /** The two exception classes the rule can hand back; only their kind matters. */
  datatype ErrorKind = InvalidName | InvalidPassword

  /** What the strength checker reports for a password: a tier and a "strong" flag. */
  datatype Strength = Strength(tier: int, strong: bool)

  /** The pair the rule returns: a classification code and an optional error. */
  datatype ValidationResult = ValidationResult(code: int, error: Option<ErrorKind>)

  /** The code the rule gives a password the checker reports as strong. */
  const StrongCode := 4

  /**
   What holds of every result of the rule: the code lies in 0..4, and the
   strong code comes without an error (equivalently, any error comes with a
   code below 4).
   */
  predicate WellFormed(r: ValidationResult) {
    && 0 <= r.code <= StrongCode
    && (r.code == StrongCode ==> r.error == None)
    && (r.error != None ==> r.code < StrongCode)
  }

  /**
   The rule itself: the first matching case wins. The name is tested first,
   then the password for emptiness, then the checker's strong flag, then its
   tier.
   */
  function IsValidForm(name: string, password: string, checkString: string -> Strength): (r: ValidationResult)
    ensures WellFormed(r)
    ensures r.error == Some(InvalidName) <==> name == ""
    ensures r.code == StrongCode <==> name != "" && password != "" && checkString(password).strong
    ensures 0 < r.code < StrongCode ==> r.code == checkString(password).tier && r.error == Some(InvalidPassword)
    ensures r.error == None ==> name != "" && password != ""
  {
    var s := checkString(password);
    if name == "" then ValidationResult(0, Some(InvalidName))
    else if password == "" then ValidationResult(0, Some(InvalidPassword))
    else if s.strong then ValidationResult(StrongCode, None)
    else if s.tier == 1 then ValidationResult(1, Some(InvalidPassword))
    else if s.tier == 2 then ValidationResult(2, Some(InvalidPassword))
    else if s.tier == 3 then ValidationResult(3, Some(InvalidPassword))
    else ValidationResult(0, None)
  }

  // The five cases of the rule, each for every password and every checker.

  /** An empty name is reported first, whatever the password and the checker say. */
  lemma EmptyNameRejected(password: string, checkString: string -> Strength)
    ensures IsValidForm("", password, checkString) == ValidationResult(0, Some(InvalidName))
  {}

  /** With a name present, an empty password is reported whatever the checker says. */
  lemma EmptyPasswordRejected(name: string, checkString: string -> Strength)
    requires name != ""
    ensures IsValidForm(name, "", checkString) == ValidationResult(0, Some(InvalidPassword))
  {}

  /** A strong password is accepted without error, whatever tier the checker also reports. */
  lemma StrongPasswordAccepted(name: string, password: string, checkString: string -> Strength)
    requires name != "" && password != ""
    requires checkString(password).strong
    ensures IsValidForm(name, password, checkString) == ValidationResult(StrongCode, None)
  {}

  /** A password that is not strong but rated 1, 2 or 3 yields that tier and a password error. */
  lemma WeakPasswordTier(name: string, password: string, checkString: string -> Strength)
    requires name != "" && password != ""
    requires !checkString(password).strong && checkString(password).tier in {1, 2, 3}
    ensures IsValidForm(name, password, checkString)
         == ValidationResult(checkString(password).tier, Some(InvalidPassword))
  {}

  /** Any other rating yields code 0 and no error. */
  lemma UnratedPasswordFallsThrough(name: string, password: string, checkString: string -> Strength)
    requires name != "" && password != ""
    requires !checkString(password).strong && checkString(password).tier !in {1, 2, 3}
    ensures IsValidForm(name, password, checkString) == ValidationResult(0, None)
  {}

  /**
   The rule looks at the name only for emptiness and at the password only for
   emptiness and through the checker's report.
   */
  lemma RuleSeesOnlyEmptinessAndStrength(name1: string, name2: string, password1: string, password2: string,
                                         checkString: string -> Strength)
    requires (name1 == "") == (name2 == "")
    requires (password1 == "") == (password2 == "")
    requires password1 != "" ==> checkString(password1) == checkString(password2)
    ensures IsValidForm(name1, password1, checkString) == IsValidForm(name2, password2, checkString)
  {}

  /**
   The stream `formValidation` returns: combining the latest user name with
   the latest password, it emits the rule's result for every pair it is handed,
   in order. `pairs` is the sequence of (name, password) pairs the combining
   operator delivers to the combiner.
   */
  function ValidationStream(pairs: seq<(string, string)>, checkString: string -> Strength): (results: seq<ValidationResult>)
    ensures |results| == |pairs|
  {
    if pairs == [] then []
    else [IsValidForm(pairs[0].0, pairs[0].1, checkString)] + ValidationStream(pairs[1..], checkString)
  }

  /** The k-th value the stream emits is exactly the rule applied to the k-th pair. */
  lemma {:induction false} ValidationStreamAt(pairs: seq<(string, string)>, checkString: string -> Strength, k: nat)
    requires k < |pairs|
    ensures ValidationStream(pairs, checkString)[k] == IsValidForm(pairs[k].0, pairs[k].1, checkString)
  {
    if k > 0 {
      ValidationStreamAt(pairs[1..], checkString, k - 1);
    }
  }

  /**
   Every value the stream emits is well formed, and it carries the name error
   exactly at the pairs whose name is empty.
   */
  lemma {:induction false} ValidationStreamWellFormed(pairs: seq<(string, string)>, checkString: string -> Strength)
    ensures forall k :: 0 <= k < |pairs| ==> WellFormed(ValidationStream(pairs, checkString)[k])
    ensures forall k :: 0 <= k < |pairs| ==>
              (ValidationStream(pairs, checkString)[k].error == Some(InvalidName) <==> pairs[k].0 == "")
  {
    forall k | 0 <= k < |pairs|
      ensures WellFormed(ValidationStream(pairs, checkString)[k])
      ensures ValidationStream(pairs, checkString)[k].error == Some(InvalidName) <==> pairs[k].0 == ""
    {
      ValidationStreamAt(pairs, checkString, k);
    }
  }
}
