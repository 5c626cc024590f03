/** The key rule of key.go: the empty string is the only invalid key. */
module Keys {
  import opened Errors

  function ValidateKey(key: string): (r: Outcome)
    ensures r == Pass <==> key != ""
    ensures r != Pass ==> r == Fail(InvalidKey)
  {
    if key == "" then Fail(InvalidKey) else Pass
  }
}
