/** Option and Result types, and the errors the modelled Ruby code raises.

    Every Ruby exception of the library becomes an `Err` value; the
    constructor of `Error` names the Ruby exception class it stands for. */
module Results {

  datatype Option<+T> = None | Some(value: T) {
    predicate IsFailure() { None? }

    function PropagateFailure<U>(): Option<U>
      requires None?
    {
      None
    }

    function Extract(): T
      requires Some?
    {
      value
    }
  }

  datatype Error =
    /** IPAddr::InvalidAddressError / InvalidPrefixError (both ArgumentError):
        the text is not an address this model can read. */
    | InvalidAddress(text: string)
    /** IPAddr::AddressFamilyError (an ArgumentError): `IPAddr.new(nil)`,
        reached when a split leaves no address field. */
    | MissingAddress
    /** ArgumentError "Expected IPv4, got IPv6" and the IPv6 counterpart. */
    | WrongFamily(text: string)
    /** ArgumentError "Expected pattern NAME=value". */
    | MalformedLine(line: string)
    /** ArgumentError of `Integer#to_ipaddr` for a version other than 4 or 6. */
    | UnsupportedVersion(version: int)
    /** ArgumentError "comparison of Array with Array failed" from `Array#sort`. */
    | IncomparableEntries
    /** NoMethodError: a method called on nil or on an object lacking it. */
    | NoMethod(selector: string)
    /** RuntimeError "Expected 0 or 1 primary files; found N". */
    | AmbiguousPrimary(count: nat)

  datatype Result<+T> = Ok(value: T) | Err(error: Error) {
    predicate IsFailure() { Err? }

    function PropagateFailure<U>(): Result<U>
      requires Err?
    {
      Err(error)
    }

    function Extract(): T
      requires Ok?
    {
      value
    }
  }

  /** Ruby's `map` over steps that may raise, run first to last: every
      value in order, or the error of the first step that fails. */
  function Collect<T>(rs: seq<Result<T>>): (r: Result<seq<T>>)
    ensures r.Ok? <==> forall k :: 0 <= k < |rs| ==> rs[k].Ok?
    ensures r.Ok? ==> |r.value| == |rs| && forall k :: 0 <= k < |rs| ==> rs[k] == Ok(r.value[k])
    ensures r.Err? ==> exists k :: 0 <= k < |rs| && rs[k] == Err(r.error) && forall j :: 0 <= j < k ==> rs[j].Ok?
  {
    if |rs| == 0 then Ok([])
    else
      var tail := rs[1..];
      assert forall k :: 1 <= k < |rs| ==> rs[k] == tail[k - 1];
      var first :- rs[0];
      var rest :- Collect(tail);
      Ok([first] + rest)
  }
}
