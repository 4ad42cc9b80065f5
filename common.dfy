/**
 Values shared by the two scripts: an optional value, the JSON values their
 response dictionaries hold, and the index-counter loop both of them use to
 fill a response dictionary from a list of names and a list of values.
 */
module Common {

  datatype Option<+T> = None | Some(value: T)

  /** The values a response dictionary holds before it is serialised. */
  datatype JsonValue =
    | JNull
    | JBool(b: bool)
    | JInt(n: int)
    | JStr(s: string)
    | JStrList(items: seq<string>)

  /** No later name in `names` repeats the name at position `i`. */
  predicate LastOccurrence(names: seq<string>, i: nat)
    requires i < |names|
  {
    forall k :: i < k < |names| ==> names[k] != names[i]
  }

  /**
   The response loop of both scripts: `response[a] = returnvals[i]` for each
   name `a` of `returnvars`, with `i` counting up. Every name becomes a key,
   nothing else does, and a name maps to the value at its last position (a
   later assignment to a dictionary key replaces an earlier one).
   */
  method BuildResponse<V>(returnvars: seq<string>, returnvals: seq<V>) returns (response: map<string, V>)
    requires |returnvars| <= |returnvals|
    ensures forall a :: a in response <==> a in returnvars
    ensures forall i :: 0 <= i < |returnvars| && LastOccurrence(returnvars, i) ==>
              response[returnvars[i]] == returnvals[i]
  {
    response := map[];
    var i := 0;
    while i < |returnvars|
      invariant 0 <= i <= |returnvars|
      invariant forall a :: a in response <==> a in returnvars[..i]
      invariant forall j :: 0 <= j < i && (forall k :: j < k < i ==> returnvars[k] != returnvars[j]) ==>
                  response[returnvars[j]] == returnvals[j]
    {
      response := response[returnvars[i] := returnvals[i]];
      i := i + 1;
    }
  }
}
