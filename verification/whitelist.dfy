/**
 The whitelisting helper used by the user and post controllers: copy into a
 fresh object exactly those keys of the request body that are allowed.
 */
module Whitelist {
  import opened JsValues

  /**
   `filterObj(obj, ...allowedFields)` (and its twin `filteredObj`): walk the
   body's own keys and copy each one that is listed as allowed. The order in
   which the keys are visited does not matter for the result.
   */
  method FilterObj(obj: Body, allowed: seq<string>) returns (r: Body)
    ensures forall k :: k in r <==> k in obj && k in allowed
    ensures forall k :: k in r ==> r[k] == obj[k]
  {
    r := map[];
    var todo := obj.Keys;
    while todo != {}
      invariant todo <= obj.Keys
      invariant forall k :: k in r <==> k in obj && k !in todo && k in allowed
      invariant forall k :: k in r ==> r[k] == obj[k]
      decreases todo
    {
      var k :| k in todo;
      if k in allowed {
        r := r[k := obj[k]];
      }
      todo := todo - {k};
    }
  }
}
