/**
 The user controller's `updateMe`: refuse any password data, then forward
 only the whitelisted profile fields to the store.
 */
module Profile {
  import opened Results
  import opened JsValues
  import opened Whitelist

  /** The profile fields a user may change about themself. */
  const ProfileFields: seq<string> := ["name", "email"]

  /** `updateMe`: the patch handed to the store, or the 400 refusal for password data. */
  method UpdateMe(body: Body) returns (r: Result<Body, AppError>)
    ensures r.Failure? <==> TruthyField(body, "password") || TruthyField(body, "passwordConfirm")
    ensures r.Failure? ==> r.error == AppError(PasswordFieldsNotAllowed, Some(400))
    ensures r.Success? ==> forall k :: k in r.value <==> k in body && (k == "name" || k == "email")
    ensures r.Success? ==> forall k :: k in r.value ==> r.value[k] == body[k]
  {
    if TruthyField(body, "password") || TruthyField(body, "passwordConfirm") {
      return Failure(AppError(PasswordFieldsNotAllowed, Some(400)));
    }
    var patch := FilterObj(body, ProfileFields);
    r := Success(patch);
  }
}
