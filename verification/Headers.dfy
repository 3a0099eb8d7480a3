/** Ordered header fields; names compare case-insensitively and may repeat. */
module Headers {
  import opened Text

  datatype Header = Header(name: string, value: string)

  type HeaderList = seq<Header>

  /** All values of the fields called `name`, in order. */
  function GetAll(headers: HeaderList, name: string): seq<string> {
    if headers == [] then []
    else (if IEquals(headers[0].name, name) then [headers[0].value] else []) + GetAll(headers[1..], name)
  }

  /** First value of `name`, or the empty string. */
  function Get(headers: HeaderList, name: string): string {
    var all := GetAll(headers, name);
    if all == [] then "" else all[0]
  }

  predicate Has(headers: HeaderList, name: string) { GetAll(headers, name) != [] }

  lemma {:induction false} GetAllAppend(a: HeaderList, b: HeaderList, name: string)
    ensures GetAll(a + b, name) == GetAll(a, name) + GetAll(b, name)
  {
    if a == [] {
      assert a + b == b;
    } else {
      assert (a + b)[1..] == a[1..] + b;
      GetAllAppend(a[1..], b, name);
    }
  }
}
