/**
 * The REST request handlers of client_rest/handlers.go: each one decodes a
 * JSON request, validates it field by field in a fixed order, consults or
 * updates the store and answers with an HTTP status and either the item,
 * the key list, or an error record carrying one of the client error codes.
 *
 * JSON decoding is not modelled: a handler receives the decoded request, or
 * None when the body could not be decoded. Writing the response is left
 * out; the handlers return the response they would write. The sub-element
 * lookups `GetDictItem` / `GetListItem` parse the stored JSON value and are
 * taken as lookup functions; `KeysMask` is not part of the modelled store,
 * so its answer is a parameter.
 */
module Handlers {
  import opened Wrappers
  import opened Algo
  import opened Expiration
  import opened Storage

  /** Shortest and longest accepted key lifetime, in seconds (31 weeks). */
  const KEY_TTL_MIN: int := 5
  const KEY_TTL_MAX: int := 31 * 7 * 24 * 3600

  /** Client error codes. */
  const ERR_CODE_ENDPOINT_NOT_FOUND: int := 1
  const ERR_CODE_BAD_REQ: int := 2
  const ERR_CODE_NO_KEY_PROVIDED: int := 10
  const ERR_CODE_NO_VALUE_PROVIDED: int := 11
  const ERR_CODE_BAD_KEY_TTL: int := 12
  const ERR_CODE_BAD_KEY_MASK: int := 13
  const ERR_CODE_NO_VALUE_FOUND: int := 21
  const ERR_CODE_CANNOT_SET_KEY: int := 22

  /** HTTP status codes the handlers answer with. */
  const STATUS_OK: int := 200
  const STATUS_CREATED: int := 201
  const STATUS_NO_CONTENT: int := 204
  const STATUS_BAD_REQUEST: int := 400
  const STATUS_NOT_FOUND: int := 404

  /**
   * `CacheItem`, the item record of requests and replies. Absent JSON
   * fields decode to their zero values: an empty key or value, an empty
   * sub-key, a zero sub-index and a zero TTL.
   */
  datatype CacheItem = CacheItem(key: Key, value: Value, subKey: string, subIndex: int, ttl: int)

  /** The body of a keys request: the key mask, empty when absent. */
  datatype KeysRequest = KeysRequest(mask: string)

  /**
   * What a handler writes: an error record, an item, a key list with its
   * mask, or a status with no body.
   */
  datatype Response =
    | ErrorReply(status: int, code: int, reason: string)
    | ItemReply(status: int, item: CacheItem)
    | KeysReply(status: int, mask: string, keys: seq<Key>)
    | NoBody(status: int)

  /** `sendErrorResponse` with status 400, the status of every client error. */
  function BadRequest(code: int, reason: string): (r: Response)
    ensures r.ErrorReply? && r.status == STATUS_BAD_REQUEST && r.code == code && r.reason == reason
  {
    ErrorReply(STATUS_BAD_REQUEST, code, reason)
  }

  const CANNOT_DECODE: Response := BadRequest(ERR_CODE_BAD_REQ, "cannot decode request")
  const NO_KEY: Response := BadRequest(ERR_CODE_NO_KEY_PROVIDED, "no key provided")
  const NO_VALUE: Response := BadRequest(ERR_CODE_NO_VALUE_PROVIDED, "no value provided")
  const BAD_TTL: Response := BadRequest(ERR_CODE_BAD_KEY_TTL, "bad key TTL")
  const NOT_FOUND: Response := BadRequest(ERR_CODE_NO_VALUE_FOUND, "value not found")
  const CANNOT_SET: Response := BadRequest(ERR_CODE_CANNOT_SET_KEY, "cannot save provided data")
  const BAD_MASK: Response := BadRequest(ERR_CODE_BAD_KEY_MASK, "bad key mask")

  /** `ResourceNotFound`: every unknown endpoint gets 404 with code 1. */
  function ResourceNotFound(): (r: Response)
    ensures r.ErrorReply? && r.status == STATUS_NOT_FOUND && r.code == ERR_CODE_ENDPOINT_NOT_FOUND
  {
    ErrorReply(STATUS_NOT_FOUND, ERR_CODE_ENDPOINT_NOT_FOUND, "endpoint not found")
  }

  /* ---------------------------------------------------------------- set */

  /** A lifetime the set handler accepts. */
  predicate TtlInRange(ttl: int) {
    KEY_TTL_MIN <= ttl <= KEY_TTL_MAX
  }

  /** An item the set handler passes on to the store. */
  predicate Acceptable(req: CacheItem) {
    req.key != [] && |req.value| >= 1 && TtlInRange(req.ttl)
  }

  /**
   * The validation chain of `SetItemHandler`: the first failing check, in
   * the order key, value, TTL, decides the rejection.
   */
  function SetCheck(req: CacheItem): (r: Option<Response>)
    ensures r.None? <==> Acceptable(req)
    ensures r.Some? ==> r.value.ErrorReply? && r.value.status == STATUS_BAD_REQUEST
  {
    if req.key == [] then Some(NO_KEY)
    else if |req.value| < 1 then Some(NO_VALUE)
    else if req.ttl < KEY_TTL_MIN || req.ttl > KEY_TTL_MAX then Some(BAD_TTL)
    else None
  }

  /**
   * The answer of `SetItemHandler`, given whether the store took the item:
   * the request itself with 201, or the first validation error, or
   * CANNOT_SET_KEY when the store refused a valid request.
   */
  function SetItemReply(decoded: Option<CacheItem>, stored: bool): (r: Response)
    ensures decoded.None? ==> r == CANNOT_DECODE
    ensures r.status == STATUS_CREATED <==> decoded.Some? && Acceptable(decoded.value) && stored
    ensures r.status == STATUS_CREATED ==> r == ItemReply(STATUS_CREATED, decoded.value)
    ensures r.status != STATUS_CREATED ==> r.ErrorReply? && r.status == STATUS_BAD_REQUEST
  {
    match decoded
    case None => CANNOT_DECODE
    case Some(req) =>
      match SetCheck(req)
      case Some(rejection) => rejection
      case None => if stored then ItemReply(STATUS_CREATED, req) else CANNOT_SET
  }

  /**
   * The order of the set validation: the error code is the first failing
   * check, in the order key, value, TTL, whatever the store would do.
   */
  lemma SetValidationOrder(req: CacheItem, stored: bool)
    ensures var r := SetItemReply(Some(req), stored);
      && (r.ErrorReply? && r.code == ERR_CODE_NO_KEY_PROVIDED <==> req.key == [])
      && (r.ErrorReply? && r.code == ERR_CODE_NO_VALUE_PROVIDED <==> req.key != [] && req.value == [])
      && (r.ErrorReply? && r.code == ERR_CODE_BAD_KEY_TTL <==>
            req.key != [] && req.value != [] && !TtlInRange(req.ttl))
      && (r.ErrorReply? && r.code == ERR_CODE_CANNOT_SET_KEY <==> Acceptable(req) && !stored)
  {
  }

  /**
   * The set requests of the handler tests: no key, no value, no TTL, a
   * TTL of 2 and one of 20000000 are rejected with the code of the first
   * missing or bad field; the bounds themselves are accepted.
   */
  lemma SetItemExamples(key: Key, value: Value, stored: bool)
    requires key != [] && value != []
    ensures SetItemReply(Some(CacheItem([], value, "", 0, 3600)), stored) == NO_KEY
    ensures SetItemReply(Some(CacheItem(key, [], "", 0, 3600)), stored) == NO_VALUE
    ensures SetItemReply(Some(CacheItem(key, value, "", 0, 0)), stored) == BAD_TTL
    ensures SetItemReply(Some(CacheItem(key, value, "", 0, 2)), stored) == BAD_TTL
    ensures SetItemReply(Some(CacheItem(key, value, "", 0, 20000000)), stored) == BAD_TTL
    ensures SetItemReply(Some(CacheItem(key, value, "", 0, KEY_TTL_MAX + 1)), stored) == BAD_TTL
    ensures Acceptable(CacheItem(key, value, "", 0, KEY_TTL_MIN))
    ensures Acceptable(CacheItem(key, value, "", 0, KEY_TTL_MAX))
    ensures KEY_TTL_MAX == 18748800
  {
  }

  /**
   * `SetItemHandler`: an acceptable item is stored for its TTL in seconds
   * from now; the store takes it exactly when the key and value are within
   * the store's limits. A rejected or refused request leaves the store as
   * it was.
   */
  method SetItemHandler(c: ConcurrentMap, decoded: Option<CacheItem>, now: int) returns (r: Response)
    requires c.Valid()
    modifies c.shards
    ensures c.Valid()
    ensures r == SetItemReply(decoded, decoded.Some? && ValidKey(decoded.value.key) && ValidValue(decoded.value.value))
    ensures r.status == STATUS_CREATED ==> c.Get(decoded.value.key) == Some(decoded.value.value)
    ensures r.status != STATUS_CREATED ==> forall k :: c.Get(k) == old(c.Get(k))
    ensures decoded.Some? ==> forall k :: k != decoded.value.key ==> c.Get(k) == old(c.Get(k))
  {
    if decoded.None? {
      return CANNOT_DECODE;
    }
    var req := decoded.value;
    var rejection := SetCheck(req);
    if rejection.Some? {
      return rejection.value;
    }
    var stored := c.Set(req.key, req.value, req.ttl * SECOND, now);
    r := if stored then ItemReply(STATUS_CREATED, req) else CANNOT_SET;
  }

  /* ---------------------------------------------------------------- get */

  /**
   * The lookup `GetItemHandler` makes: a non-empty sub-key selects an entry
   * of the stored dictionary, otherwise a non-zero sub-index selects an
   * element of the stored list (counting from 1 in the request, from 0 in
   * the list), otherwise the whole stored value.
   */
  function GetLookup(c: ConcurrentMap, req: CacheItem,
                     dictItem: (Key, string) -> Option<Value>, listItem: (Key, int) -> Option<Value>): Option<Value>
    reads c, c.shards
    requires |c.shards| > 0
  {
    if req.subKey != [] then dictItem(req.key, req.subKey)
    else if req.subIndex != 0 then listItem(req.key, req.subIndex - 1)
    else c.Get(req.key)
  }

  /** The item a successful get answers with: the key, the selector used, and the value. */
  function FoundItem(req: CacheItem, value: Value): (item: CacheItem)
    ensures item.key == req.key && item.value == value && item.ttl == 0
    ensures req.subKey != [] ==> item.subKey == req.subKey && item.subIndex == 0
    ensures req.subKey == [] ==> item.subKey == [] && item.subIndex == req.subIndex
  {
    if req.subKey != [] then CacheItem(req.key, value, req.subKey, 0, 0)
    else if req.subIndex != 0 then CacheItem(req.key, value, "", req.subIndex, 0)
    else CacheItem(req.key, value, "", 0, 0)
  }

  /**
   * `GetItemHandler`: an undecodable request or an empty key is rejected;
   * otherwise the value the lookup finds is returned with 200, and a
   * missing one gives NO_VALUE_FOUND with 400.
   */
  function GetItemHandler(c: ConcurrentMap, decoded: Option<CacheItem>,
                          dictItem: (Key, string) -> Option<Value>, listItem: (Key, int) -> Option<Value>): (r: Response)
    reads c, c.shards
    requires |c.shards| > 0
    ensures decoded.None? ==> r == CANNOT_DECODE
    ensures decoded.Some? && decoded.value.key == [] ==> r == NO_KEY
    ensures r.status == STATUS_OK <==>
      decoded.Some? && decoded.value.key != [] && GetLookup(c, decoded.value, dictItem, listItem).Some?
    ensures r.status == STATUS_OK ==>
      r == ItemReply(STATUS_OK, FoundItem(decoded.value, GetLookup(c, decoded.value, dictItem, listItem).value))
    ensures decoded.Some? && decoded.value.key != [] && GetLookup(c, decoded.value, dictItem, listItem).None? ==>
      r == NOT_FOUND
  {
    match decoded
    case None => CANNOT_DECODE
    case Some(req) =>
      if req.key == [] then NO_KEY
      else
        match GetLookup(c, req, dictItem, listItem)
        case Some(value) => ItemReply(STATUS_OK, FoundItem(req, value))
        case None => NOT_FOUND
  }

  /**
   * A non-empty sub-key takes precedence: the sub-index of the request and
   * the list lookup then make no difference to the answer.
   */
  lemma SubKeyTakesPrecedence(c: ConcurrentMap, req: CacheItem, index: int,
                              dictItem: (Key, string) -> Option<Value>,
                              listItem: (Key, int) -> Option<Value>, otherList: (Key, int) -> Option<Value>)
    requires |c.shards| > 0 && req.subKey != []
    ensures GetItemHandler(c, Some(req), dictItem, listItem)
         == GetItemHandler(c, Some(req.(subIndex := index)), dictItem, otherList)
  {
  }

  /**
   * Sub-indices count from 1: with no sub-key, sub-index i reads list
   * element i - 1 and echoes i, and sub-index 0 reads the whole value.
   */
  lemma SubIndexIsOneBased(c: ConcurrentMap, req: CacheItem,
                           dictItem: (Key, string) -> Option<Value>, listItem: (Key, int) -> Option<Value>)
    requires |c.shards| > 0 && req.key != [] && req.subKey == [] && req.subIndex != 0
    requires listItem(req.key, req.subIndex - 1).Some?
    ensures GetItemHandler(c, Some(req), dictItem, listItem)
         == ItemReply(STATUS_OK, CacheItem(req.key, listItem(req.key, req.subIndex - 1).value, "", req.subIndex, 0))
  {
  }

  /** A whole-value get answers exactly what the store's Get finds. */
  lemma GetWholeValue(c: ConcurrentMap, key: Key,
                      dictItem: (Key, string) -> Option<Value>, listItem: (Key, int) -> Option<Value>)
    requires |c.shards| > 0 && key != []
    ensures var r := GetItemHandler(c, Some(CacheItem(key, [], "", 0, 0)), dictItem, listItem);
      && (c.Get(key).Some? ==> r == ItemReply(STATUS_OK, CacheItem(key, c.Get(key).value, "", 0, 0)))
      && (c.Get(key).None? ==> r == NOT_FOUND)
  {
  }

  /* ------------------------------------------------------------- remove */

  /**
   * The answer of `RemoveItemHandler`: an undecodable request or an empty
   * key is rejected, anything else answers 204 with no body, whether the
   * key was there or not.
   */
  function RemoveItemReply(decoded: Option<CacheItem>): (r: Response)
    ensures decoded.None? ==> r == CANNOT_DECODE
    ensures decoded.Some? && decoded.value.key == [] ==> r == NO_KEY
    ensures r.status == STATUS_NO_CONTENT <==> decoded.Some? && decoded.value.key != []
    ensures r.status == STATUS_NO_CONTENT ==> r == NoBody(STATUS_NO_CONTENT)
  {
    match decoded
    case None => CANNOT_DECODE
    case Some(req) => if req.key == [] then NO_KEY else NoBody(STATUS_NO_CONTENT)
  }

  /**
   * `RemoveItemHandler`: a request with a key removes that key from the
   * store and nothing else; a rejected one leaves the store as it was.
   */
  method RemoveItemHandler(c: ConcurrentMap, decoded: Option<CacheItem>) returns (r: Response)
    requires c.Valid()
    modifies c.shards
    ensures c.Valid()
    ensures r == RemoveItemReply(decoded)
    ensures r.status == STATUS_NO_CONTENT ==> c.Get(decoded.value.key) == None
    ensures r.status != STATUS_NO_CONTENT ==> forall k :: c.Get(k) == old(c.Get(k))
    ensures decoded.Some? ==> forall k :: k != decoded.value.key ==> c.Get(k) == old(c.Get(k))
  {
    r := RemoveItemReply(decoded);
    if r.status == STATUS_NO_CONTENT {
      c.Remove(decoded.value.key);
    }
  }

  /**
   * The handler tests' item life cycle: a fresh key reads as not found, a
   * set makes it read back with its value, a remove makes it not found
   * again; every other key is untouched throughout.
   */
  method ItemLifeCycle(c: ConcurrentMap, key: Key, value: Value, ttl: int, now: int,
                       dictItem: (Key, string) -> Option<Value>, listItem: (Key, int) -> Option<Value>)
    returns (created: Response, found: Response, removed: Response, gone: Response)
    requires c.Valid() && key != [] && value != [] && TtlInRange(ttl)
    requires ValidKey(key) && ValidValue(value)
    modifies c.shards
    ensures created == ItemReply(STATUS_CREATED, CacheItem(key, value, "", 0, ttl))
    ensures found == ItemReply(STATUS_OK, CacheItem(key, value, "", 0, 0))
    ensures removed == NoBody(STATUS_NO_CONTENT)
    ensures gone == NOT_FOUND
    ensures forall k :: k != key ==> c.Get(k) == old(c.Get(k))
  {
    var item := CacheItem(key, value, "", 0, ttl);
    var probe := CacheItem(key, [], "", 0, 0);
    created := SetItemHandler(c, Some(item), now);
    found := GetItemHandler(c, Some(probe), dictItem, listItem);
    removed := RemoveItemHandler(c, Some(probe));
    gone := GetItemHandler(c, Some(probe), dictItem, listItem);
  }

  /* --------------------------------------------------------------- keys */

  /**
   * `GetKeysHandler`: an undecodable request or an empty mask lists every
   * stored key, once each, under the mask "*"; otherwise the mask's answer
   * is returned under the mask, and a mask the store rejects gives
   * BAD_KEY_MASK. The store is not changed.
   */
  method GetKeysHandler(c: ConcurrentMap, decoded: Option<KeysRequest>, maskKeys: Option<seq<Key>>) returns (r: Response)
    requires c.Valid()
    ensures decoded.None? || decoded.value.mask == [] ==>
      && r.KeysReply? && r.status == STATUS_OK && r.mask == "*"
      && (forall k :: k in r.keys <==> c.Get(k).Some?)
      && Distinct(r.keys)
    ensures decoded.Some? && decoded.value.mask != [] && maskKeys.Some? ==>
      r == KeysReply(STATUS_OK, decoded.value.mask, maskKeys.value)
    ensures decoded.Some? && decoded.value.mask != [] && maskKeys.None? ==> r == BAD_MASK
  {
    if decoded.None? || decoded.value.mask == [] {
      var keys := c.Keys();
      r := KeysReply(STATUS_OK, "*", keys);
    } else if maskKeys.Some? {
      r := KeysReply(STATUS_OK, decoded.value.mask, maskKeys.value);
    } else {
      r := BAD_MASK;
    }
  }
}
