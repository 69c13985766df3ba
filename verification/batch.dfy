/** `parse`: run the account parser over every account of every customer,
    keeping the accounts that parse. */
module Batch {
  import opened Results
  import opened Seqs
  import opened Accounts

  /** The request body: customer ids with their account lists, in the
      order of the JSON object; `None` is a null list. */
  type Payload = seq<(string, Option<seq<RawAccount>>)>

  /** The response: each customer id with its parsed accounts. */
  type Response = seq<(string, seq<ParsedAccount>)>

  /** The inner loop over a customer's accounts: append every parsed
      account; a failure of `parse_account` ends the loop and escapes. */
  function KeepParsed(accounts: seq<RawAccount>): Result<seq<ParsedAccount>> {
    CollectSome(accounts, ParseAccount)
  }

  /** The loop fails exactly when some account's parse fails; otherwise it
      keeps, in order, the accounts that parse to a result, and nothing
      else. */
  lemma KeepParsedSpec(accounts: seq<RawAccount>)
    ensures KeepParsed(accounts).Failure? <==>
      exists i :: 0 <= i < |accounts| && ParseAccount(accounts[i]).Failure?
    ensures KeepParsed(accounts).Success? ==> KeepParsed(accounts).value == FilterMap(accounts, Settle(ParseAccount))
  {
    CollectSomeFails(accounts, ParseAccount);
    if KeepParsed(accounts).Success? {
      CollectSomeKeeps(accounts, ParseAccount);
    }
  }

  /** One customer of the outer loop: a null or empty list gives no accounts. */
  function ParseCustomer(accounts: Option<seq<RawAccount>>): (r: Result<seq<ParsedAccount>>)
    ensures accounts.None? || accounts.value == [] ==> r == Success([])
  {
    match accounts
    case None => Success([])
    case Some(list) => if |list| == 0 then Success([]) else KeepParsed(list)
  }

  /** `parse`: every customer id of the payload appears in the response, in
      order, with its parsed accounts; any failure escapes and ends the
      batch. */
  function Parse(payload: Payload): (r: Result<Response>)
    ensures r.Success? ==> |r.value| == |payload|
    ensures r.Success? ==> forall i :: 0 <= i < |payload| ==> r.value[i].0 == payload[i].0
  {
    if payload == [] then Success([])
    else
      var n := |payload| - 1;
      match Parse(payload[..n])
      case Failure(e) => Failure(e)
      case Success(init) =>
        match ParseCustomer(payload[n].1)
        case Failure(e) => Failure(e)
        case Success(list) =>
          assert forall i :: 0 <= i < n ==> payload[..n][i] == payload[i];
          Success(init + [(payload[n].0, list)])
  }

  /** The batch fails exactly when some customer's accounts make it fail;
      otherwise each customer's entry holds exactly its own parsed accounts. */
  lemma {:induction false} ParseSpec(payload: Payload)
    ensures Parse(payload).Failure? <==>
      exists i :: 0 <= i < |payload| && ParseCustomer(payload[i].1).Failure?
    ensures Parse(payload).Success? ==>
      forall i :: 0 <= i < |payload| ==> ParseCustomer(payload[i].1) == Success(Parse(payload).value[i].1)
  {
    if payload != [] {
      var n := |payload| - 1;
      var init := payload[..n];
      ParseSpec(init);
      assert forall i :: 0 <= i < n ==> init[i] == payload[i];
      if Parse(init).Failure? {
        var i :| 0 <= i < n && ParseCustomer(init[i].1).Failure?;
        assert ParseCustomer(payload[i].1).Failure?;
      }
    }
  }

  /** A customer whose accounts all parse without failing keeps exactly the
      accounts that produce a result; an account with an unreadable amount
      or an unsupported type contributes nothing. */
  lemma CustomerKeepsSettled(accounts: seq<RawAccount>)
    requires forall i :: 0 <= i < |accounts| ==> ParseAccount(accounts[i]).Success?
    ensures ParseCustomer(Some(accounts)) == Success(FilterMap(accounts, Settle(ParseAccount)))
  {
    KeepParsedSpec(accounts);
  }
}
