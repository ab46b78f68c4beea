/** Finding the account of a delegate key: the check of one account object, the scan of the paged
    registry, and the order cache, registry, hint in which `resolve_account` tries them. */
module AccountScan {
  import opened Common
  import opened ByteOrder

  // ---------- what the chain answers ----------

  /** JSON values as far as they matter: non-negative integers, texts, arrays and objects. */
  datatype Json = Number(n: nat) | Text(s: string) | Array(items: seq<Json>) | Object(fields: map<string, Json>) | Other

  function Get(v: Json, name: string): Option<Json> {
    if v.Object? && name in v.fields then Some(v.fields[name]) else None
  }

  datatype ScanError = RpcError | KeyNotFound

  /** One entry of a page of dynamic fields, and a page. */
  datatype Entry = Entry(objectId: Option<string>)
  datatype Page = Page(data: seq<Entry>, nextCursor: Option<string>, hasNextPage: bool)

  /** The node's answers; None stands for every way in which a request can fail or its answer can
      lack what is looked for. A field without a text value answers "". */
  datatype Chain = Chain(
    accountFields: string -> Option<map<string, Json>>,
    tableId: Option<string>,
    page: (string, Option<string>) -> Option<Page>,
    fieldValue: string -> Option<string>)

  // ---------- one account ----------

  function Numbers(key: seq<Byte>): seq<Json> {
    seq(|key|, i requires 0 <= i < |key| => Number(key[i] as int))
  }

  /** A stored delegate key, with or without its wrapper, against a key. */
  predicate Matches(dk: Json, key: seq<Byte>) {
    var inner := match Get(dk, "fields") case Some(f) => f case None => dk;
    match Get(inner, "public_key")
    case Some(Array(items)) => items == Numbers(key)
    case _ => false
  }

  /** The JSON of a stored key. */
  function Stored(key: seq<Byte>, extra: map<string, Json>, wrapped: bool): Json {
    var plain := Object(extra["public_key" := Array(Numbers(key))]);
    if wrapped then Object(map["fields" := plain]) else plain
  }

  /** A stored key matches that key and no other, in either form. */
  lemma MatchesExactly(stored: seq<Byte>, extra: map<string, Json>, wrapped: bool, key: seq<Byte>)
    requires "fields" !in extra
    ensures Matches(Stored(stored, extra, wrapped), key) <==> stored == key
  {
    var plain := Object(extra["public_key" := Array(Numbers(stored))]);
    assert Get(plain, "public_key") == Some(Array(Numbers(stored)));
    assert Get(plain, "fields") == None;
    if Numbers(stored) == Numbers(key) {
      assert |Numbers(stored)| == |Numbers(key)|;
      forall i | 0 <= i < |stored|
        ensures stored[i] == key[i]
      {
        assert Numbers(stored)[i] == Numbers(key)[i];
      }
    }
  }

  ghost predicate Holds(keys: seq<Json>, key: seq<Byte>) {
    exists i :: 0 <= i < |keys| && Matches(keys[i], key)
  }

  /** What the check of an account means. */
  ghost function Verified(chain: Chain, account: string, key: seq<Byte>): Result<string, ScanError> {
    match chain.accountFields(account)
    case None => Err(RpcError)
    case Some(fields) =>
      match (Get(Object(fields), "owner"), Get(Object(fields), "delegate_keys"))
      case (Some(Text(owner)), Some(Array(keys))) => if Holds(keys, key) then Ok(owner) else Err(KeyNotFound)
      case _ => Err(RpcError)
  }

  // ---------- accounts as they are meant ----------

  datatype StoredKey = StoredKey(key: seq<Byte>, extra: map<string, Json>, wrapped: bool)
  datatype AccountObject = AccountObject(owner: string, delegates: seq<StoredKey>)

  function KeysJson(delegates: seq<StoredKey>): seq<Json> {
    seq(|delegates|, i requires 0 <= i < |delegates| =>
      Stored(delegates[i].key, delegates[i].extra, delegates[i].wrapped))
  }

  /** The chain answers for an account with the JSON of this object. */
  ghost predicate Shows(chain: Chain, account: string, a: AccountObject) {
    && (forall i :: 0 <= i < |a.delegates| ==> "fields" !in a.delegates[i].extra)
    && chain.accountFields(account).Some?
    && var fields := chain.accountFields(account).value;
       && "owner" in fields && fields["owner"] == Text(a.owner)
       && "delegate_keys" in fields && fields["delegate_keys"] == Array(KeysJson(a.delegates))
  }

  ghost predicate Delegates(a: AccountObject, key: seq<Byte>) {
    exists i :: 0 <= i < |a.delegates| && a.delegates[i].key == key
  }

  /** A key is accepted for an account exactly if it is one of the stored keys, and then the
      answer is the account's owner. */
  lemma AcceptsStoredKeysOnly(chain: Chain, account: string, a: AccountObject, key: seq<Byte>)
    requires Shows(chain, account, a)
    ensures Verified(chain, account, key) == if Delegates(a, key) then Ok(a.owner) else Err(KeyNotFound)
  {
    var keys := KeysJson(a.delegates);
    forall i | 0 <= i < |keys|
      ensures Matches(keys[i], key) <==> a.delegates[i].key == key
    {
      MatchesExactly(a.delegates[i].key, a.delegates[i].extra, a.delegates[i].wrapped, key);
    }
    hide Matches, KeysJson;
    assert Holds(keys, key) <==> Delegates(a, key) by {
      if Holds(keys, key) {
        var i :| 0 <= i < |keys| && Matches(keys[i], key);
        assert a.delegates[i].key == key;
      }
      if Delegates(a, key) {
        var i :| 0 <= i < |a.delegates| && a.delegates[i].key == key;
        assert Matches(keys[i], key);
      }
    }
  }

  /** The check fails for a reason other than the key exactly if the object cannot be read, has no
      owner in text form, or no array of delegate keys. */
  lemma FailsExactlyWhen(chain: Chain, account: string, key: seq<Byte>)
    ensures Verified(chain, account, key) == Err(RpcError)
       <==> match chain.accountFields(account)
            case None => true
            case Some(fields) =>
              || "owner" !in fields || !fields["owner"].Text?
              || "delegate_keys" !in fields || !fields["delegate_keys"].Array?
  {
  }

  method VerifyDelegateKey(chain: Chain, account: string, key: seq<Byte>) returns (r: Result<string, ScanError>)
    ensures r == Verified(chain, account, key)
    ensures forall a :: Shows(chain, account, a) ==> r == if Delegates(a, key) then Ok(a.owner) else Err(KeyNotFound)
  {
    forall a | Shows(chain, account, a)
      ensures Verified(chain, account, key) == if Delegates(a, key) then Ok(a.owner) else Err(KeyNotFound)
    {
      AcceptsStoredKeysOnly(chain, account, a, key);
    }
    hide Shows, Delegates;
    var reply := chain.accountFields(account);
    if reply.None? {
      return Err(RpcError);
    }
    var content := Object(reply.value);
    var owner := Get(content, "owner");
    if owner.None? || !owner.value.Text? {
      return Err(RpcError);
    }
    var delegateKeys := Get(content, "delegate_keys");
    if delegateKeys.None? || !delegateKeys.value.Array? {
      return Err(RpcError);
    }
    var keys := delegateKeys.value.items;
    for i := 0 to |keys|
      invariant forall j :: 0 <= j < i ==> !Matches(keys[j], key)
    {
      if Matches(keys[i], key) {
        return Ok(owner.value.s);
      }
    }
    r := Err(KeyNotFound);
  }

  // ---------- the registry as one list ----------

  /** A place the scan comes to: a failed request or entry, an entry without account, an account. */
  datatype Item = Broken | Blank | Account(id: string)

  function ItemOf(chain: Chain, e: Entry): Item {
    match e.objectId
    case None => Broken
    case Some(objectId) =>
      match chain.fieldValue(objectId)
      case None => Broken
      case Some(id) => if id == "" then Blank else Account(id)
  }

  function Items(chain: Chain, data: seq<Entry>): seq<Item> {
    seq(|data|, i requires 0 <= i < |data| => ItemOf(chain, data[i]))
  }

  predicate HasNext(p: Page) {
    p.hasNextPage && p.nextCursor.Some?
  }

  /** `steps` bounds the pages still to come: without it a node could hand out cursors for ever. */
  ghost predicate Finite(chain: Chain, table: string, steps: Option<string> -> nat) {
    forall cursor :: chain.page(table, cursor).Some? && HasNext(chain.page(table, cursor).value)
      ==> steps(chain.page(table, cursor).value.nextCursor) < steps(cursor)
  }

  /** All places from a cursor on, page after page. */
  ghost function Flat(chain: Chain, table: string, cursor: Option<string>, steps: Option<string> -> nat): seq<Item>
    requires Finite(chain, table, steps)
    decreases steps(cursor)
  {
    match chain.page(table, cursor)
    case None => [Broken]
    case Some(p) => Items(chain, p.data) + (if HasNext(p) then Flat(chain, table, p.nextCursor, steps) else [])
  }

  /** What the scan makes of a place, or None if it goes on. */
  ghost function Verdict(chain: Chain, item: Item, key: seq<Byte>): Option<Result<(string, string), ScanError>> {
    match item
    case Broken => Some(Err(RpcError))
    case Blank => None
    case Account(id) =>
      match Verified(chain, id, key)
      case Ok(owner) => Some(Ok((id, owner)))
      case Err(KeyNotFound) => None
      case Err(RpcError) => Some(Err(RpcError))
  }

  /** The first verdict. */
  ghost function Scan(chain: Chain, items: seq<Item>, key: seq<Byte>): Result<(string, string), ScanError> {
    if items == [] then Err(KeyNotFound)
    else
      match Verdict(chain, items[0], key)
      case Some(r) => r
      case None => Scan(chain, items[1..], key)
  }

  lemma {:induction false} ScanAppend(chain: Chain, before: seq<Item>, after: seq<Item>, key: seq<Byte>)
    requires forall i :: 0 <= i < |before| ==> Verdict(chain, before[i], key).None?
    ensures Scan(chain, before + after, key) == Scan(chain, after, key)
  {
    hide Verdict;
    if before == [] {
      assert before + after == after;
    } else {
      assert (before + after)[1..] == before[1..] + after;
      ScanAppend(chain, before[1..], after, key);
    }
  }

  lemma ScanStops(chain: Chain, before: seq<Item>, item: Item, after: seq<Item>, key: seq<Byte>)
    requires forall i :: 0 <= i < |before| ==> Verdict(chain, before[i], key).None?
    requires Verdict(chain, item, key).Some?
    ensures Scan(chain, before + [item] + after, key) == Verdict(chain, item, key).value
  {
    hide Verdict;
    ScanAppend(chain, before, [item] + after, key);
    assert before + [item] + after == before + ([item] + after);
  }

  /** One page: the first verdict among its entries. */
  method ScanPage(chain: Chain, data: seq<Entry>, key: seq<Byte>)
    returns (found: Option<Result<(string, string), ScanError>>)
    ensures found.None? ==> forall i :: 0 <= i < |data| ==> Verdict(chain, ItemOf(chain, data[i]), key).None?
    ensures found.Some? ==> exists i :: 0 <= i < |data| && found == Verdict(chain, ItemOf(chain, data[i]), key)
                                        && forall j :: 0 <= j < i ==> Verdict(chain, ItemOf(chain, data[j]), key).None?
  {
    for i := 0 to |data|
      invariant forall j :: 0 <= j < i ==> Verdict(chain, ItemOf(chain, data[j]), key).None?
    {
      var objectId := data[i].objectId;
      if objectId.None? {
        return Some(Err(RpcError));
      }
      var value := chain.fieldValue(objectId.value);
      if value.None? {
        return Some(Err(RpcError));
      }
      var accountId := value.value;
      if accountId == "" {
        continue;
      }
      var verified := VerifyDelegateKey(chain, accountId, key);
      match verified
      case Ok(owner) =>
        return Some(Ok((accountId, owner)));
      case Err(KeyNotFound) =>
        continue;
      case Err(RpcError) =>
        return Some(Err(RpcError));
    }
    found := None;
  }

  /** The paged scan returns the first verdict of the whole registry. */
  method FindAccount(chain: Chain, key: seq<Byte>, ghost steps: Option<string> -> nat)
    returns (r: Result<(string, string), ScanError>)
    requires chain.tableId.Some? ==> Finite(chain, chain.tableId.value, steps)
    ensures r == Found(chain, key, steps)
  {
    hide Verdict, Scan;
    if chain.tableId.None? {
      return Err(RpcError);
    }
    var table := chain.tableId.value;
    var cursor: Option<string> := None;
    while true
      invariant Scan(chain, Flat(chain, table, None, steps), key) == Scan(chain, Flat(chain, table, cursor, steps), key)
      decreases steps(cursor)
    {
      var reply := chain.page(table, cursor);
      if reply.None? {
        BrokenPage(chain, key);
        return Err(RpcError);
      }
      var p := reply.value;
      var found := ScanPage(chain, p.data, key);
      ghost var rest := if HasNext(p) then Flat(chain, table, p.nextCursor, steps) else [];
      if found.Some? {
        PageVerdict(chain, p.data, rest, key, found);
        return found.value;
      }
      ScanAppend(chain, Items(chain, p.data), rest, key);
      if !p.hasNextPage || p.nextCursor.None? {
        NothingLeft(chain, key);
        return Err(KeyNotFound);
      }
      cursor := p.nextCursor;
    }
  }

  ghost function Found(chain: Chain, key: seq<Byte>, steps: Option<string> -> nat): Result<(string, string), ScanError>
    requires chain.tableId.Some? ==> Finite(chain, chain.tableId.value, steps)
  {
    match chain.tableId
    case None => Err(RpcError)
    case Some(table) => Scan(chain, Flat(chain, table, None, steps), key)
  }

  lemma BrokenPage(chain: Chain, key: seq<Byte>)
    ensures Scan(chain, [Broken], key) == Err(RpcError)
  {
  }

  lemma NothingLeft(chain: Chain, key: seq<Byte>)
    ensures Scan(chain, [], key) == Err(KeyNotFound)
  {
  }

  lemma PageVerdict(chain: Chain, data: seq<Entry>, rest: seq<Item>, key: seq<Byte>,
                    found: Option<Result<(string, string), ScanError>>)
    requires found.Some?
    requires exists i :: 0 <= i < |data| && found == Verdict(chain, ItemOf(chain, data[i]), key)
                         && forall j :: 0 <= j < i ==> Verdict(chain, ItemOf(chain, data[j]), key).None?
    ensures Scan(chain, Items(chain, data) + rest, key) == found.value
  {
    hide Verdict, Scan;
    var i :| 0 <= i < |data| && found == Verdict(chain, ItemOf(chain, data[i]), key)
             && forall j :: 0 <= j < i ==> Verdict(chain, ItemOf(chain, data[j]), key).None?;
    var items := Items(chain, data);
    ScanStops(chain, items[..i], items[i], items[i + 1..] + rest, key);
    assert items[..i] + [items[i]] + (items[i + 1..] + rest) == items + rest;
  }

  // ---------- what the scan finds ----------

  /** The scan reports KeyNotFound exactly if no place has a verdict, so only after it has looked
      at every one; otherwise it reports the verdict of the first place that has one. */
  lemma {:induction false} ScanIsFirst(chain: Chain, items: seq<Item>, key: seq<Byte>)
    ensures Scan(chain, items, key) == Err(KeyNotFound)
       <==> forall i :: 0 <= i < |items| ==> Verdict(chain, items[i], key).None?
    ensures Scan(chain, items, key) != Err(KeyNotFound)
       <==> exists i :: 0 <= i < |items| && Verdict(chain, items[i], key) == Some(Scan(chain, items, key))
                        && forall j :: 0 <= j < i ==> Verdict(chain, items[j], key).None?
  {
    if items == [] {
    } else {
      NeverNotFound(chain, items[0], key);
      if Verdict(chain, items[0], key).None? {
        hide Verdict;
        var rest := items[1..];
        ScanIsFirst(chain, rest, key);
        assert forall i :: 1 <= i < |items| ==> items[i] == rest[i - 1];
        if Scan(chain, rest, key) != Err(KeyNotFound) {
          var i :| 0 <= i < |rest| && Verdict(chain, rest[i], key) == Some(Scan(chain, rest, key))
                   && forall j :: 0 <= j < i ==> Verdict(chain, rest[j], key).None?;
          assert Verdict(chain, items[i + 1], key) == Some(Scan(chain, items, key));
        }
      }
    }
  }

  lemma NeverNotFound(chain: Chain, item: Item, key: seq<Byte>)
    ensures Verdict(chain, item, key) != Some(Err(KeyNotFound))
  {
  }

  /** Nothing fails on the way. */
  ghost predicate NoFailures(chain: Chain, items: seq<Item>, key: seq<Byte>) {
    forall i :: 0 <= i < |items| ==> Verdict(chain, items[i], key) != Some(Err(RpcError))
  }

  ghost predicate Lists(items: seq<Item>, account: string) {
    exists i :: 0 <= i < |items| && items[i] == Account(account)
  }

  /** Without failures the scan finds an account that holds the key exactly if the registry lists
      one; what it returns is a listed account with its owner. */
  lemma FindsHolderIffListed(chain: Chain, items: seq<Item>, key: seq<Byte>)
    requires NoFailures(chain, items, key)
    ensures Scan(chain, items, key).Ok? <==> exists a :: Lists(items, a) && Verified(chain, a, key).Ok?
    ensures Scan(chain, items, key).Err? ==> Scan(chain, items, key) == Err(KeyNotFound)
  {
    ScanIsFirst(chain, items, key);
    hide Scan;
    var r := Scan(chain, items, key);
    if r != Err(KeyNotFound) {
      var i :| 0 <= i < |items| && Verdict(chain, items[i], key) == Some(r);
      assert r.Ok? && Lists(items, items[i].id);
    }
    if exists a :: Lists(items, a) && Verified(chain, a, key).Ok? {
      var a :| Lists(items, a) && Verified(chain, a, key).Ok?;
      var i :| 0 <= i < |items| && items[i] == Account(a);
      assert Verdict(chain, items[i], key).Some?;
    }
  }

  /** An answer is sound, whatever else fails. */
  lemma FoundIsListedHolder(chain: Chain, items: seq<Item>, key: seq<Byte>)
    requires Scan(chain, items, key).Ok?
    ensures var (account, owner) := Scan(chain, items, key).value;
            Lists(items, account) && Verified(chain, account, key) == Ok(owner)
  {
    ScanIsFirst(chain, items, key);
    hide Scan;
    var r := Scan(chain, items, key);
    var i :| 0 <= i < |items| && Verdict(chain, items[i], key) == Some(r);
    assert items[i] == Account(r.value.0);
  }

  /** The cursors that the pages lead to. */
  ghost function Cursors(chain: Chain, table: string, cursor: Option<string>, steps: Option<string> -> nat)
    : seq<Option<string>>
    requires Finite(chain, table, steps)
    decreases steps(cursor)
  {
    match chain.page(table, cursor)
    case None => [cursor]
    case Some(p) => [cursor] + (if HasNext(p) then Cursors(chain, table, p.nextCursor, steps) else [])
  }

  /** KeyNotFound is reported only if every page could be read, no entry of any page was broken,
      and every account that an entry named lacks the key. An entry that named none, as one does
      whose field could not be read, is passed over without knowing whose it is. */
  lemma {:induction false} NotFoundSawEveryPage(chain: Chain, table: string, cursor: Option<string>,
                                                steps: Option<string> -> nat, key: seq<Byte>)
    requires Finite(chain, table, steps)
    requires Scan(chain, Flat(chain, table, cursor, steps), key) == Err(KeyNotFound)
    ensures forall c :: c in Cursors(chain, table, cursor, steps) ==>
              && chain.page(table, c).Some?
              && forall i :: 0 <= i < |chain.page(table, c).value.data| ==>
                   match ItemOf(chain, chain.page(table, c).value.data[i])
                   case Broken => false
                   case Blank => true
                   case Account(id) => Verified(chain, id, key) == Err(KeyNotFound)
    decreases steps(cursor)
  {
    var items := Flat(chain, table, cursor, steps);
    ScanIsFirst(chain, items, key);
    BrokenPage(chain, key);
    hide Scan, Verified, Finite;
    match chain.page(table, cursor)
    case None =>
      assert false;
    case Some(p) =>
      var here := Items(chain, p.data);
      forall i | 0 <= i < |p.data|
        ensures Verdict(chain, ItemOf(chain, p.data[i]), key).None?
      {
        assert items[i] == here[i];
      }
      if HasNext(p) {
        ScanAppend(chain, here, Flat(chain, table, p.nextCursor, steps), key);
        NotFoundSawEveryPage(chain, table, p.nextCursor, steps, key);
      }
  }

  lemma {:induction false} CursorsFollowPages(chain: Chain, table: string, cursor: Option<string>,
                                              steps: Option<string> -> nat)
    requires Finite(chain, table, steps)
    ensures cursor in Cursors(chain, table, cursor, steps)
    ensures forall c :: c in Cursors(chain, table, cursor, steps) && chain.page(table, c).Some? ==>
              var p := chain.page(table, c).value;
              p.hasNextPage && p.nextCursor.Some? ==> p.nextCursor in Cursors(chain, table, cursor, steps)
    decreases steps(cursor)
  {
    match chain.page(table, cursor)
    case None =>
    case Some(p) =>
      if HasNext(p) {
        CursorsFollowPages(chain, table, p.nextCursor, steps);
      }
  }

  ghost predicate Names(chain: Chain, e: Entry, account: string) {
    account != "" && e.objectId.Some? && chain.fieldValue(e.objectId.value) == Some(account)
  }

  /** Some page of the registry has an entry that names the account. */
  ghost predicate Registered(chain: Chain, table: string, cursor: Option<string>, steps: Option<string> -> nat,
                             account: string)
    requires Finite(chain, table, steps)
  {
    exists c :: c in Cursors(chain, table, cursor, steps) && PageNames(chain, table, c, account)
  }

  ghost predicate PageNames(chain: Chain, table: string, cursor: Option<string>, account: string) {
    && chain.page(table, cursor).Some?
    && var data := chain.page(table, cursor).value.data;
       exists i :: 0 <= i < |data| && Names(chain, data[i], account)
  }

  /** A page can be read, and so can each of its entries; what they name are these accounts. */
  ghost predicate Readable(chain: Chain, table: string, cursor: Option<string>, accounts: map<string, AccountObject>) {
    && chain.page(table, cursor).Some?
    && forall e :: e in chain.page(table, cursor).value.data ==> EntryReadable(chain, e, accounts)
  }

  ghost predicate EntryReadable(chain: Chain, e: Entry, accounts: map<string, AccountObject>) {
    && e.objectId.Some?
    && chain.fieldValue(e.objectId.value).Some?
    && var id := chain.fieldValue(e.objectId.value).value;
       id == "" || (id in accounts && Shows(chain, id, accounts[id]))
  }

  ghost predicate AccountsOnly(chain: Chain, items: seq<Item>, accounts: map<string, AccountObject>) {
    forall i :: 0 <= i < |items| && items[i] != Blank ==>
      items[i].Account? && items[i].id in accounts && Shows(chain, items[i].id, accounts[items[i].id])
  }

  ghost predicate FirstHolder(items: seq<Item>, key: seq<Byte>, accounts: map<string, AccountObject>, i: int)
    requires forall j :: 0 <= j < |items| && items[j] != Blank ==> items[j].Account? && items[j].id in accounts
  {
    && 0 <= i < |items| && items[i] != Blank && Delegates(accounts[items[i].id], key)
    && forall j :: 0 <= j < i && items[j] != Blank ==> !Delegates(accounts[items[j].id], key)
  }

  /** The scan answers with the first account that has the key among its stored keys, and its
      owner; if there is none, the key is not found. */
  lemma ScanFindsFirstHolder(chain: Chain, items: seq<Item>, key: seq<Byte>, accounts: map<string, AccountObject>)
    requires AccountsOnly(chain, items, accounts)
    ensures Scan(chain, items, key).Ok? ==>
              exists i :: && FirstHolder(items, key, accounts, i)
                          && Scan(chain, items, key).value == (items[i].id, accounts[items[i].id].owner)
    ensures Scan(chain, items, key).Err? ==>
              && Scan(chain, items, key) == Err(KeyNotFound)
              && forall i :: 0 <= i < |items| && items[i] != Blank ==> !Delegates(accounts[items[i].id], key)
  {
    forall i | 0 <= i < |items| && items[i] != Blank
      ensures var a := accounts[items[i].id];
              Verified(chain, items[i].id, key) == if Delegates(a, key) then Ok(a.owner) else Err(KeyNotFound)
    {
      AcceptsStoredKeysOnly(chain, items[i].id, accounts[items[i].id], key);
    }
    ScanIsFirst(chain, items, key);
    hide Scan, Delegates, Verified, Shows;
    var r := Scan(chain, items, key);
    if r != Err(KeyNotFound) {
      var i :| 0 <= i < |items| && Verdict(chain, items[i], key) == Some(r)
               && forall j :: 0 <= j < i ==> Verdict(chain, items[j], key).None?;
      assert FirstHolder(items, key, accounts, i);
    }
  }

  lemma {:induction false} FlatAccounts(chain: Chain, table: string, cursor: Option<string>,
                                        steps: Option<string> -> nat, accounts: map<string, AccountObject>)
    requires Finite(chain, table, steps)
    requires forall c :: c in Cursors(chain, table, cursor, steps) ==> Readable(chain, table, c, accounts)
    ensures AccountsOnly(chain, Flat(chain, table, cursor, steps), accounts)
    decreases steps(cursor)
  {
    CursorsFollowPages(chain, table, cursor, steps);
    PageAccounts(chain, table, cursor, accounts);
    hide Finite, Readable, Shows, Items;
    var p := chain.page(table, cursor).value;
    if HasNext(p) {
      assert Cursors(chain, table, cursor, steps) == [cursor] + Cursors(chain, table, p.nextCursor, steps);
      FlatAccounts(chain, table, p.nextCursor, steps, accounts);
    }
  }

  lemma PageAccounts(chain: Chain, table: string, cursor: Option<string>, accounts: map<string, AccountObject>)
    requires Readable(chain, table, cursor, accounts)
    ensures AccountsOnly(chain, Items(chain, chain.page(table, cursor).value.data), accounts)
  {
    hide Shows;
    var data := chain.page(table, cursor).value.data;
    assert forall i :: 0 <= i < |data| ==> data[i] in data && EntryReadable(chain, data[i], accounts);
  }

  lemma {:induction false} FlatLists(chain: Chain, table: string, cursor: Option<string>, steps: Option<string> -> nat,
                                     id: string)
    requires Finite(chain, table, steps)
    ensures Lists(Flat(chain, table, cursor, steps), id) <==> Registered(chain, table, cursor, steps, id)
    decreases steps(cursor)
  {
    hide PageNames, Items, ItemOf, Lists;
    match chain.page(table, cursor)
    case None =>
      UnreadPage(chain, table, cursor, id);
    case Some(p) =>
      PageLists(chain, table, cursor, id);
      if HasNext(p) {
        FlatLists(chain, table, p.nextCursor, steps, id);
        ListsAppend(Items(chain, p.data), Flat(chain, table, p.nextCursor, steps), id);
      } else {
        assert Items(chain, p.data) + [] == Items(chain, p.data);
      }
  }

  lemma UnreadPage(chain: Chain, table: string, cursor: Option<string>, id: string)
    requires chain.page(table, cursor).None?
    ensures !Lists([Broken], id) && !PageNames(chain, table, cursor, id)
  {
  }

  lemma PageLists(chain: Chain, table: string, cursor: Option<string>, id: string)
    requires chain.page(table, cursor).Some?
    ensures Lists(Items(chain, chain.page(table, cursor).value.data), id) <==> PageNames(chain, table, cursor, id)
  {
    var data := chain.page(table, cursor).value.data;
    var items := Items(chain, data);
    if Lists(items, id) {
      var i :| 0 <= i < |items| && items[i] == Account(id);
      assert Names(chain, data[i], id);
    }
    if PageNames(chain, table, cursor, id) {
      var i :| 0 <= i < |data| && Names(chain, data[i], id);
      assert items[i] == Account(id);
    }
  }

  lemma ListsAppend(a: seq<Item>, b: seq<Item>, id: string)
    ensures Lists(a + b, id) <==> Lists(a, id) || Lists(b, id)
  {
    assert Lists(a + b, id) <==> Account(id) in a + b;
    assert Lists(a, id) <==> Account(id) in a;
    assert Lists(b, id) <==> Account(id) in b;
  }

  /** On a registry that can be read, the scan finds an account exactly if some page names one that
      has the key among its stored keys; it answers with such an account and its owner. */
  lemma FindsStoredKey(chain: Chain, key: seq<Byte>, steps: Option<string> -> nat, accounts: map<string, AccountObject>)
    requires chain.tableId.Some? && Finite(chain, chain.tableId.value, steps)
    requires var table := chain.tableId.value;
             forall c :: c in Cursors(chain, table, None, steps) ==> Readable(chain, table, c, accounts)
    ensures
      var table := chain.tableId.value;
      match Found(chain, key, steps)
      case Ok(found) =>
        && Registered(chain, table, None, steps, found.0)
        && found.0 in accounts && Delegates(accounts[found.0], key) && found.1 == accounts[found.0].owner
      case Err(e) =>
        && e == KeyNotFound
        && forall id :: Registered(chain, table, None, steps, id) ==> id in accounts && !Delegates(accounts[id], key)
  {
    var table := chain.tableId.value;
    var items := Flat(chain, table, None, steps);
    FlatAccounts(chain, table, None, steps, accounts);
    hide Scan, Flat, Cursors, Finite, Readable, Delegates, Registered, Shows;
    ScanFindsFirstHolder(chain, items, key, accounts);
    var r := Scan(chain, items, key);
    if r.Ok? {
      var i :| FirstHolder(items, key, accounts, i) && r.value == (items[i].id, accounts[items[i].id].owner);
      assert items[i] == Account(r.value.0);
      FlatLists(chain, table, None, steps, r.value.0);
    } else {
      forall id | Registered(chain, table, None, steps, id)
        ensures id in accounts && !Delegates(accounts[id], key)
      {
        FlatLists(chain, table, None, steps, id);
        var i :| 0 <= i < |items| && items[i] == Account(id);
        assert items[i] != Blank;
      }
    }
  }

  // ---------- the cache ----------

  datatype CacheRow = CacheRow(account: string, owner: string, expiresAt: int)

  const DAY: int := 24 * 60 * 60

  class KeyCache {
    var rows: map<string, CacheRow>

    constructor ()
      ensures rows == map[]
    {
      rows := map[];
    }

    /** Rows past their expiry are not seen. */
    method Lookup(keyHex: string, now: int) returns (hit: Option<string>)
      ensures hit == Hit(rows, keyHex, now)
    {
      hit := if keyHex in rows && rows[keyHex].expiresAt > now then Some(rows[keyHex].account) else None;
    }

    method Put(keyHex: string, account: string, owner: string, now: int)
      modifies this
      ensures rows == old(rows)[keyHex := CacheRow(account, owner, now + DAY)]
    {
      rows := rows[keyHex := CacheRow(account, owner, now + DAY)];
    }
  }

  function Hit(rows: map<string, CacheRow>, keyHex: string, now: int): Option<string> {
    if keyHex in rows && rows[keyHex].expiresAt > now then Some(rows[keyHex].account) else None
  }

  /** A write to the cache. */
  datatype Entered = Entered(keyHex: string, account: string, owner: string, at: int)

  function Rows(writes: seq<Entered>): map<string, CacheRow> {
    if writes == [] then map[]
    else
      var last := writes[|writes| - 1];
      Rows(writes[..|writes| - 1])[last.keyHex := CacheRow(last.account, last.owner, last.at + DAY)]
  }

  ghost predicate LatestOf(writes: seq<Entered>, keyHex: string, i: int) {
    0 <= i < |writes| && writes[i].keyHex == keyHex && forall j :: i < j < |writes| ==> writes[j].keyHex != keyHex
  }

  /** A lookup answers with the account of the key's latest write, and for a day from then on. */
  lemma {:induction false} HitIsLatestWrite(writes: seq<Entered>, keyHex: string, now: int)
    ensures Hit(Rows(writes), keyHex, now).Some?
       <==> exists i :: LatestOf(writes, keyHex, i) && now < writes[i].at + DAY
    ensures forall i :: LatestOf(writes, keyHex, i) && now < writes[i].at + DAY
              ==> Hit(Rows(writes), keyHex, now) == Some(writes[i].account)
  {
    if writes == [] {
    } else {
      var n := |writes| - 1;
      var before := writes[..n];
      HitIsLatestWrite(before, keyHex, now);
      if writes[n].keyHex == keyHex {
        assert LatestOf(writes, keyHex, n);
      } else {
        assert forall i :: LatestOf(writes, keyHex, i) <==> LatestOf(before, keyHex, i);
      }
    }
  }

  // ---------- resolution ----------

  datatype ResolveError = NoAccount | FallbackFailed(e: ScanError)

  /** The answer, and whether it is written to the cache. */
  datatype Outcome = Outcome(answer: Result<(string, string), ResolveError>, cached: bool)

  function Fallback(hint: Option<string>, configured: Option<string>): Option<string> {
    match hint
    case Some(_) => hint
    case None => configured
  }

  ghost function Resolved(chain: Chain, hit: Option<string>, scan: Result<(string, string), ScanError>,
                          fallback: Option<string>, key: seq<Byte>): Outcome
  {
    if hit.Some? && Verified(chain, hit.value, key).Ok? then
      Outcome(Ok((hit.value, Verified(chain, hit.value, key).value)), false)
    else if scan.Ok? then Outcome(Ok(scan.value), true)
    else
      match fallback
      case None => Outcome(Err(NoAccount), false)
      case Some(account) =>
        match Verified(chain, account, key)
        case Ok(owner) => Outcome(Ok((account, owner)), true)
        case Err(e) => Outcome(Err(FallbackFailed(e)), false)
  }

  /** An unreadable cache counts as a miss; a failed cache write is ignored. */
  method ResolveAccount(cache: KeyCache, chain: Chain, keyHex: string, key: seq<Byte>, hint: Option<string>,
                        configured: Option<string>, now: int, readable: bool, writable: bool,
                        ghost steps: Option<string> -> nat)
    returns (r: Result<(string, string), ResolveError>)
    requires chain.tableId.Some? ==> Finite(chain, chain.tableId.value, steps)
    modifies cache
    ensures var hit := if readable then Hit(old(cache.rows), keyHex, now) else None;
            var outcome := Resolved(chain, hit, Found(chain, key, steps), Fallback(hint, configured), key);
            && r == outcome.answer
            && cache.rows == if outcome.cached && writable
                             then old(cache.rows)[keyHex := CacheRow(r.value.0, r.value.1, now + DAY)]
                             else old(cache.rows)
  {
    var hit: Option<string> := None;
    if readable {
      hit := cache.Lookup(keyHex, now);
    }
    if hit.Some? {
      var again := VerifyDelegateKey(chain, hit.value, key);
      if again.Ok? {
        return Ok((hit.value, again.value));
      }
    }
    var scan := FindAccount(chain, key, steps);
    if scan.Ok? {
      if writable {
        cache.Put(keyHex, scan.value.0, scan.value.1, now);
      }
      return Ok(scan.value);
    }
    var fallback := Fallback(hint, configured);
    if fallback.None? {
      return Err(NoAccount);
    }
    var verified := VerifyDelegateKey(chain, fallback.value, key);
    match verified
    case Err(e) =>
      return Err(FallbackFailed(e));
    case Ok(owner) =>
      if writable {
        cache.Put(keyHex, fallback.value, owner, now);
      }
      return Ok((fallback.value, owner));
  }

  /** Whatever the cache holds, an answer is an account that has the key among its stored keys now,
      with the owner that the chain names. */
  lemma ResolutionIsSound(chain: Chain, hit: Option<string>, key: seq<Byte>, steps: Option<string> -> nat,
                          fallback: Option<string>)
    requires chain.tableId.Some? ==> Finite(chain, chain.tableId.value, steps)
    ensures var answer := Resolved(chain, hit, Found(chain, key, steps), fallback, key).answer;
            answer.Ok? ==>
              && Verified(chain, answer.value.0, key) == Ok(answer.value.1)
              && forall a :: Shows(chain, answer.value.0, a) ==> Delegates(a, key) && answer.value.1 == a.owner
  {
    if Found(chain, key, steps).Ok? {
      FoundIsListedHolder(chain, Flat(chain, chain.tableId.value, None, steps), key);
    }
    var answer := Resolved(chain, hit, Found(chain, key, steps), fallback, key).answer;
    if answer.Ok? {
      forall a | Shows(chain, answer.value.0, a)
        ensures Delegates(a, key) && answer.value.1 == a.owner
      {
        AcceptsStoredKeysOnly(chain, answer.value.0, a, key);
      }
    }
  }

  /** A cached account that still has the key answers; else the first holder in the registry; else
      the account of the hint, or without a hint the configured one. Only what the cache did not
      answer is written to it. */
  lemma TriesInOrder(chain: Chain, hit: Option<string>, scan: Result<(string, string), ScanError>,
                     hint: Option<string>, configured: Option<string>, key: seq<Byte>)
    ensures
      var outcome := Resolved(chain, hit, scan, Fallback(hint, configured), key);
      var fromCache := hit.Some? && Verified(chain, hit.value, key).Ok?;
      && (fromCache ==> outcome.answer.Ok? && outcome.answer.value.0 == hit.value && !outcome.cached)
      && (!fromCache && scan.Ok? ==> outcome.answer == Ok(scan.value) && outcome.cached)
      && (!fromCache && scan.Err? && (hint.Some? || configured.Some?) ==>
            var account := if hint.Some? then hint.value else configured.value;
            match Verified(chain, account, key)
            case Ok(owner) => outcome.answer == Ok((account, owner)) && outcome.cached
            case Err(e) => outcome.answer == Err(FallbackFailed(e)) && !outcome.cached)
      && (!fromCache && scan.Err? && hint.None? && configured.None? ==>
            outcome.answer == Err(NoAccount) && !outcome.cached)
  {
  }

  /** What is written to the cache gives the same answer for a day, whatever the registry and the
      fallback answer by then. */
  lemma CachedAnswerStays(chain: Chain, hit: Option<string>, key: seq<Byte>, steps: Option<string> -> nat,
                          fallback: Option<string>, rows: map<string, CacheRow>, keyHex: string, now: int, later: int,
                          scan: Result<(string, string), ScanError>, otherFallback: Option<string>)
    requires chain.tableId.Some? ==> Finite(chain, chain.tableId.value, steps)
    requires Resolved(chain, hit, Found(chain, key, steps), fallback, key).cached && later < now + DAY
    ensures
      var answer := Resolved(chain, hit, Found(chain, key, steps), fallback, key).answer;
      && answer.Ok?
      && var after := rows[keyHex := CacheRow(answer.value.0, answer.value.1, now + DAY)];
         Resolved(chain, Hit(after, keyHex, later), scan, otherFallback, key) == Outcome(answer, false)
  {
    ResolutionIsSound(chain, hit, key, steps, fallback);
    hide Verified, Found;
  }

  ghost predicate Candidate(a: string, hit: Option<string>, items: seq<Item>, fallback: Option<string>) {
    hit == Some(a) || Lists(items, a) || fallback == Some(a)
  }

  /** When the scan meets no failure, a key is resolved exactly if an account that the cache, the
      registry or the fallback names holds it. */
  lemma ResolvesExactlyWhen(chain: Chain, hit: Option<string>, key: seq<Byte>, steps: Option<string> -> nat,
                            fallback: Option<string>)
    requires chain.tableId.Some? && Finite(chain, chain.tableId.value, steps)
    requires NoFailures(chain, Flat(chain, chain.tableId.value, None, steps), key)
    ensures var items := Flat(chain, chain.tableId.value, None, steps);
            Resolved(chain, hit, Found(chain, key, steps), fallback, key).answer.Ok?
            <==> exists a :: Candidate(a, hit, items, fallback) && Verified(chain, a, key).Ok?
  {
    hide Verified, Scan, NoFailures, Finite;
    var items := Flat(chain, chain.tableId.value, None, steps);
    FindsHolderIffListed(chain, items, key);
    var answer := Resolved(chain, hit, Found(chain, key, steps), fallback, key).answer;
    if answer.Ok? {
      ResolutionIsSound(chain, hit, key, steps, fallback);
      if Scan(chain, items, key).Ok? {
        FoundIsListedHolder(chain, items, key);
      }
      assert Candidate(answer.value.0, hit, items, fallback);
    }
  }

  /** A cached account, right or wrong, never makes a key fail that resolves without it. */
  lemma CacheNeverRefuses(chain: Chain, hit: Option<string>, scan: Result<(string, string), ScanError>,
                          fallback: Option<string>, key: seq<Byte>)
    ensures Resolved(chain, None, scan, fallback, key).answer.Ok? ==> Resolved(chain, hit, scan, fallback, key).answer.Ok?
  {
  }
}
