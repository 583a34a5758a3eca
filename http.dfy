/** What a route handler sends back: a 200 with a JSON body, or another status with
    the `{ message }` body that every error path of the router uses. */
module Http {

  datatype Response<T> = Ok(body: T) | Status(code: nat, message: string) {
    function StatusCode(): nat {
      if Ok? then 200 else code
    }
  }
}
