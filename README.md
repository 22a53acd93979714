# Portfolio e-commerce: a Dafny model of the order, login and cart logic

This project models the parts of the shop backend and its web page that
carry logic:

- **Orders** (`orders.dfy`) models `create_order`. It runs as one atomic
  transaction over the product, order and item tables: it checks the
  caller and the cart, opens a PENDING order, then walks the requested
  lines in order. For each line it re-reads the product, checks the
  stock, copies the price into an item, lowers the stock and adds to the
  total.
  - The module also models the guards of `register_user`,
    `create_product` and `get_order`.
  - The class `Shop` performs these endpoints in place on the tables.
    Each of its methods is proved equal to a function on a `Db` value.
- **Models** (`models.dfy`) holds the records and the database value
  with its referential integrity. It also holds the on-delete rules
  (cascade and set-null) and the price snapshot `OrderItem.save` takes.
  Money is counted in integer cents.
- **RateLimit** (`ratelimit.dfy`) models the `rate_limit` decorator in
  two parts. First, the cache key derived from `X-Forwarded-For` or
  `REMOTE_ADDR`. Second, the sliding window of request times stored
  under that key; the class `RateLimiter` filters, checks and appends in
  place.
- **Login** (`login.dfy`) models `obtain_token` as its ordered checks
  and the message each failing check gives. Base64, RSA with the
  sentinel, `authenticate` and token issuing are parameters. The
  rate-limited endpoint is a method over a `RateLimiter`.
- **Utf8** (`utf8.dfy`) implements strict UTF-8 decoding, the step
  between decryption and authentication, and UTF-8 encoding, its
  inverse. Both round trips are proved. It also models the bytes the
  page's encryption library makes of a password, one UTF-16 code unit at
  a time. For text up to U+FFFF these are exactly the UTF-8 bytes. A
  character above U+FFFF becomes two encoded surrogates, which the
  decoder refuses (see "Findings").
- **Cart** (`cart.dfy`) models the page's cart (`agregarAlCarrito`) and
  the request it becomes (`comprarCarrito`). It proves conservation:
  for each product, units in the cart plus local stock equal the loaded
  stock. It also proves that a cart built on the page is accepted by
  `create_order` when the server has not lost stock since the page
  loaded.

Where the code and its own comments or column types pull apart, the
model follows the code:
- **Unknown product.** The comment on `@transaction.atomic`
  (api/routers.py:210) says every database operation completes or none
  does. In the code, an unknown product id answers 404 without marking
  the rollback (api/routers.py:227 is commented out), so the transaction
  commits. See "Findings".
- **Login messages.** Each stage of `obtain_token` has its own message
  (api/routers.py:100-151); a `ValueError` anywhere in the `try` block
  gives "Invalid encrypted data - decryption failed" and any other
  exception "Decryption error". `Login.OutcomeByStage` proves the
  answers apart.
- **Quantity 0.** An item's quantity is a `PositiveIntegerField`
  (api/models.py:60), which admits 0, and `create_order` accepts a line
  of quantity 0, so the model does too. A negative quantity passes the
  stock check and is then refused by the column's check constraint. The
  resulting error leaves the atomic block and undoes everything.

## Model

| member | source | states |
|---|---|---|
| Models.StatusCode | api/models.py:38-49 | every status choice is stored as a non-empty code of at most 10 characters, the column's max_length |
| Models.ParseStatus | api/models.py:38-44 | a stored code is read back only as the choice whose code it is; anything else is no choice |
| Models.StatusCodeRoundTrip | api/models.py:38-44 | every choice reads back as itself, so the five codes are distinct |
| Models.UnlinkProduct | api/models.py:59 | SET_NULL: same items in the same order, those pointing at the product lose the reference, nothing else changes |
| Models.ItemsOutside | api/models.py:57 | CASCADE: an item survives exactly when its order is not among the deleted ones, and then every copy of it survives |
| Models.DeleteProduct | api/models.py:58-59 | the product's row goes and users and orders stay; every item keeps its place, an item that referred to the product now refers to none, and every other item is unchanged |
| Models.DeleteOrder | api/models.py:57 | the order's row goes, users and products stay, the order's items go and every copy of every other item stays |
| Models.DeleteUser | api/models.py:46-57 | the user's row and exactly their orders go, products stay, no remaining order is theirs, and exactly the items of their orders go |
| Models.DeleteProductKeepsItems | api/models.py:58-62 | deleting a product keeps every item with its order, quantity and price_at_purchase, clears only that reference, keeps every reference to another product, and keeps integrity |
| Models.DeleteOrderRemovesItems | api/models.py:57 | deleting an order removes exactly that order and its items, keeps every other order and every copy of every other item, and keeps integrity |
| Models.DeleteUserCascades | api/models.py:46-57 | deleting a user removes exactly them, their orders and those orders' items, keeps every other user, order and item copy, and keeps integrity |
| Models.SnapshotPrice | api/models.py:67-71 | a set, non-zero price is kept; an unset one stays unset only without a product |
| Models.SnapshotTakesProductPrice | api/models.py:69-70 | an unset or zero price is replaced by the attached product's price |
| Models.SnapshotSurvivesRepricing | api/models.py:67-71 | a set price is kept whatever the product's price is or whether the product is still there |
| Models.SnapshotIdempotent | api/models.py:67-71 | saving again stores what the first save stored |
| Models.ItemRow.constructor | api/models.py:55-62 | an item instance holds the order, product, quantity and price it was given |
| Models.ItemRow.Save | api/models.py:67-71 | the price field becomes the snapshot price; a row is written exactly when a price is then set, holding the order, the product's key, the quantity and that price |
| Models.CreateItem | api/routers.py:233-238 | `OrderItem.objects.create` with the product's price gives the row of the order, the product, the quantity and that price |
| Utf8.HeadLength | api/routers.py:121 | the well-formed sequence at the head is at most 4 bytes, within the input, and one byte for ASCII |
| Utf8.HeadScalar | api/routers.py:121 | a well-formed head sequence stands for a Unicode scalar value (no surrogate, nothing above U+10FFFF) |
| Utf8.Decode | api/routers.py:121 | a decoded text has no more characters than bytes, and it is empty exactly when the bytes are |
| Utf8.EncodeChar | api/routers.py:121 | the UTF-8 encoding of one character, the inverse of the decoder, is one to four bytes |
| Utf8.DecodeEncode | api/routers.py:121 | decoding the UTF-8 encoding of any text gives that text back |
| Utf8.EncodeOfHead | api/routers.py:121 | a well-formed head sequence is exactly the encoding of the character it decodes to |
| Utf8.EncodeDecode | api/routers.py:121 | bytes the decoder accepts are the encoding of what they decode to, so no two byte strings decode to the same text |
| Utf8.MalformedInputsAreRefused | api/routers.py:121 | a lone continuation byte, an overlong form and an encoded surrogate raise UnicodeDecodeError |
| Utf8.EncodeUnit | frontend/main.js:130 | the encryption library turns one UTF-16 code unit into one to three bytes |
| Utf8.PageEncodeOnBmp | frontend/main.js:130 | for text up to U+FFFF the bytes the page encrypts are exactly the UTF-8 encoding |
| Utf8.AstralPageBytesRefused | frontend/main.js:130 | the page's bytes for text holding a character above U+FFFF never decode |
| RateLimit.TrimStart | api/routers.py:53 | the result is a suffix of the input, all removed characters are whitespace and the result does not start with whitespace |
| RateLimit.TrimEnd | api/routers.py:53 | the result is a prefix of the input, all removed characters are whitespace and the result does not end with whitespace |
| RateLimit.FirstField | api/routers.py:53 | the first field is a comma-free prefix of the header that ends at the first comma or the end |
| RateLimit.ReplaceChar | api/routers.py:55 | same length, and exactly the occurrences of the one character are replaced |
| RateLimit.ClientIp | api/routers.py:50-57 | an absent or empty address gives `unknown`; otherwise the client part is no longer than the raw address |
| RateLimit.CacheKey | api/routers.py:59 | the key is `rl_`, the prefix, `_` and the client part, in that order |
| RateLimit.SharedWindow | api/routers.py:59-62 | under one decorator two requests share a window exactly when their client parts are equal |
| RateLimit.StripShape | api/routers.py:53 | stripping only removes characters and leaves no whitespace at either end |
| RateLimit.SanitizeShape | api/routers.py:55 | sanitizing a stripped, comma-free field leaves no space, colon or comma and no padding |
| RateLimit.ClientIpIsSafe | api/routers.py:50-57 | the client part of a key never holds a space, colon or comma and is never padded with whitespace |
| RateLimit.MissingAddressIsUnknown | api/routers.py:50-59 | with no address, or an empty header, the key is `rl_login_unknown` |
| RateLimit.FirstHopDecides | api/routers.py:50-55 | behind a proxy chain only the first hop counts, stripped and sanitized, and REMOTE_ADDR is not consulted |
| RateLimit.FirstFieldOfChain | api/routers.py:53 | the first field of `first,rest` is `first` when `first` has no comma |
| RateLimit.WholeFieldWithoutComma | api/routers.py:53 | a header without a comma is its own first field |
| RateLimit.UnpaddedAddress | api/routers.py:50-55 | an address without comma or padding, from either source, is only sanitized |
| RateLimit.PlainAddressIsKept | api/routers.py:50-55 | an address with nothing to strip or replace, from either source, is used as it is |
| RateLimit.Ipv6Loopback | api/routers.py:50-55 | the REMOTE_ADDR `::1` becomes the client `__1` |
| RateLimit.Kept | api/routers.py:66 | a time is kept exactly when it is in the list and later than `now - period`, with all its copies; nothing is added |
| RateLimit.KeptAllRecent | api/routers.py:66 | nothing is purged while every time is in the window |
| RateLimit.KeptNoneRecent | api/routers.py:66 | everything is purged once every time has left the window |
| RateLimit.Decide | api/routers.py:66-73 | a call is accepted exactly when fewer than `limit` times are kept; the stored list then holds `now` and at most `limit` times |
| RateLimit.ExpiryChangesNothing | api/routers.py:73 | once a cache entry's timeout has passed, deciding from it or from no entry gives the same decision, and the call is accepted with a fresh list |
| RateLimit.Decisions | api/routers.py:62-73 | successive calls on one key give one decision per call |
| RateLimit.RollingWindow | api/routers.py:62-73 | for any history from a clock that does not run backwards, at no call have more than `limit` calls been let through in the `period` seconds up to it, whatever the stored times were |
| RateLimit.AcceptedWithStored | api/routers.py:62-73 | at every call, if any call was let through in the window ending there, those calls together with the stored times still in that window number at most `limit` |
| RateLimit.AcceptedStep | api/routers.py:66-73 | the rolling bound at a later call carries over from the list stored after the first call to the history that starts with it |
| RateLimit.AcceptedFirst | api/routers.py:66-73 | the rolling bound holds at the first call of a history |
| RateLimit.AcceptedAfterIsCount | api/routers.py:66 | the recursive count of accepted calls later than a bound is the size of the set of such calls |
| RateLimit.KeptLater | api/routers.py:66 | filtering at a later time keeps no more times, and filtering twice is filtering once at the later time |
| RateLimit.KeptAppend | api/routers.py:66-72 | appending one time adds it to the kept list exactly when it is in the window |
| RateLimit.KeptAfterAccept | api/routers.py:66-73 | after an accepted call, the list stored holds one more time in a later window exactly when the call is in it, and fewer than `limit` before it |
| RateLimit.DecisionsCons | api/routers.py:62-73 | the decisions of a history are the first call's decision followed by those of the rest from the list it stored |
| RateLimit.DecisionsInWindow | api/routers.py:62-75 | within one window, starting from `n` recent times, call `i` is let through exactly when `n + i < limit` |
| RateLimit.WindowAdmitsExactlyLimit | api/routers.py:39-73 | within one window a fresh client gets exactly `limit` calls through, and every later one gets 429 |
| RateLimit.RateLimiter.constructor | api/routers.py:39-48 | a new decorator has its prefix, limit and period and an empty cache |
| RateLimit.RateLimiter.Check | api/routers.py:48-75 | a rejected call leaves the cache alone; an accepted one stores the kept times plus `now` under the client's key and changes no other key; no list is ever longer than `limit` |
| Login.ObtainToken | api/routers.py:99-151 | the view itself never answers 429, and every refusal carries one of the six messages of the view |
| Login.MessagesAreDistinct | api/routers.py:100-151 | the six failure messages are pairwise different |
| Login.OutcomeByStage | api/routers.py:99-151 | each message is given exactly when its check is the first to fail, in the order of the view; tokens exactly when every check passes |
| Login.RefreshTokenInCookie | api/routers.py:137-145 | on success the refresh token travels only in an HTTP-only, secure, SameSite=None cookie for the refresh path that lives seven days |
| Login.RecoveredPassword | api/routers.py:115-127 | a password encrypted as UTF-8 reaches `authenticate` exactly as typed |
| Login.PagePasswordRecovered | frontend/main.js:130 | a password typed on the page with no character above U+FFFF reaches `authenticate` exactly as typed |
| Login.AstralPasswordIsRefused | frontend/main.js:130 | a password typed on the page with a character above U+FFFF always gets "Invalid encrypted data - decryption failed" |
| Login.ObtainTokenLimited | api/routers.py:97-99 | the limiter answers 429 without calling the view, or records the call and answers what the view answers |
| Orders.WalkShape | api/routers.py:221-242 | the loop never adds or removes a product; run to the end it appends one item per line; stopped by a missing id it appended fewer, and the id is not a product |
| Orders.WalkAt | api/routers.py:221-242 | the loop from line `i` on decides line `i` first, exactly as one turn of the loop does |
| Orders.WalkDoneLines | api/routers.py:221-228 | a loop that runs to the end met only existing products and non-negative quantities |
| Orders.WalkDoneItems | api/routers.py:233-238 | a completed loop appends one item per line, in order, with the line's product and quantity and the price the product had when read |
| Orders.WalkDoneTotal | api/routers.py:240 | a completed loop's total is the sum of price_at_purchase × quantity over the items it appended |
| Orders.WalkDoneStock | api/routers.py:241-242 | a completed loop lowers each product's stock by the sum of its requested quantities and changes nothing else in the row |
| Orders.WalkSucceedsIff | api/routers.py:221-242 | the loop runs to the end exactly when every product exists, no quantity is negative and, summed over repeated ids, no product is asked beyond its stock |
| Orders.WalkShortReportsRemaining | api/routers.py:229-231 | a stock failure reports the product's title and its stock as left by the earlier lines, which is below the line's quantity |
| Orders.WalkMissingAppends | api/routers.py:222-228 | a loop stopped by a missing id has appended only items of the new order, for existing products |
| Orders.WalkMissingIsDonePrefix | api/routers.py:221-228 | a loop stopped by a missing id at line `k` left exactly what a loop over the first `k` lines leaves when it runs to the end |
| Orders.WalkDonePrefix | api/routers.py:221-242 | a completed loop over the first `k` lines met only feasible lines, appended their items in order at the products' prices, and lowered each stock by its requested sum |
| Orders.WalkMissingCommits | api/routers.py:221-242 | a loop stopped by a missing id at line `k` has appended one item per earlier line and lowered stock by what those lines asked, which they could have |
| Orders.PlaceOrder | api/routers.py:209-246 | users and product ids never change; only a created order or a 404 writes; both open the caller's PENDING order under the next id |
| Orders.PlaceOrderGuards | api/routers.py:213-216 | no caller gives 401 and no lines give 400, and neither writes anything |
| Orders.PlaceOrderCreates | api/routers.py:209-246 | a created order is the caller's new PENDING order with total equal to its items' sum; its items are the lines priced at the products' prices; each stock fell by its requested sum, which it covered |
| Orders.PlaceOrderShortStock | api/routers.py:229-231 | a stock failure leaves the database exactly as before, the lines were not feasible, and the answer names a product whose remaining stock was short |
| Orders.PlaceOrderMissingCommits | api/routers.py:218-228 | an unknown id at line `k` answers 404 but commits the PENDING order with total 0, one item per earlier line at its product's price, and those lines' stock decrements, which were all feasible |
| Orders.PlaceOrderKeepsIntegrity | api/routers.py:209-246 | every outcome keeps every order's owner and every item's order and product existing |
| Orders.NoOversell | api/routers.py:223-231 | two orders that together ask for more of a product than its stock cannot both be created |
| Orders.PlaceOrderKeepsTotals | api/routers.py:240-245 | every outcome except 404 keeps each order's total equal to the sum of its items |
| Orders.PartialCommitBreaksTotals | api/routers.py:222-228 | after a 5.00 product bought twice and an unknown id, the committed order's total is 0 while its items are worth 10.00 |
| Orders.PlaceOrderAtomic | api/routers.py:210-231 | the same answers as the code, the same database when an order is created, and the database untouched on every failure |
| Orders.AtomicKeepsTotals | api/routers.py:210-231 | with the 404 branch rolling back too, a failure changes nothing and totals always match their items |
| Orders.TwoUnitsExample | api/routers.py:218-245 | two units of a 9.99 product with stock 5 give a PENDING order of 19.98 and stock 3 |
| Orders.TenOfThreeExample | api/routers.py:229-231 | ten units against a stock of 3 report 3 available and change nothing |
| Orders.Register | api/routers.py:179-190 | only a created user changes the tables; 400 exactly when the email is registered; a server error exactly when it is not but the username is empty or taken |
| Orders.RegisterKeepsEmailsUnique | api/routers.py:179-190 | a user is created exactly when the email is free and the username non-empty and free; a taken email answers 400; failures change nothing; emails stay unique and the new user has the given email and username and is not staff |
| Orders.AddProduct | api/routers.py:202-206 | 403 exactly without a staff caller; a server error exactly for a staff caller with a negative stock; only a created product changes the tables |
| Orders.OnlyStaffAddsProducts | api/routers.py:202-206 | a caller who is not staff gets 403 and changes nothing; a staff caller adds one product with the given price and stock, stock defaulting to 0 |
| Orders.ItemsOf | api/routers.py:265 | the items returned are exactly the stored items of that order, each as many times as it is stored |
| Orders.FindOrder | api/routers.py:259-268 | an order is returned exactly when it exists and belongs to the caller, with exactly its stored items, each as many times as stored; otherwise 404, or 401 without a caller |
| Orders.ForeignOrderIsNotFound | api/routers.py:264-268 | another user's order is answered exactly as a missing order |
| Orders.Shop.Rollback | api/routers.py:210-230 | after a rollback every table is as it was at the start of the transaction |
| Orders.Shop.SaveLine | api/routers.py:233-242 | one checked line appends its item at the product's current price, lowers that product's stock by the quantity, and adds price × quantity to the total |
| Orders.Shop.CreateOrder | api/routers.py:209-246 | the tables after the loop, and the answer, are those of the transaction function on the tables before |
| Orders.Shop.RegisterUser | api/routers.py:178-190 | the tables and answer are those of the registration function |
| Orders.Shop.CreateProduct | api/routers.py:201-206 | the tables and answer are those of the product-creation function |
| Cart.FindProduct | frontend/main.js:270 | the position found holds the id and no earlier entry does; none when no entry has the id |
| Cart.CartIndex | frontend/main.js:279 | the position found holds the id and no earlier entry does; none when no cart entry has it |
| Cart.AddEntry | frontend/main.js:286-290 | a product already in the cart has its first entry grow by `q` in place; otherwise one entry of `q` units goes at the end |
| Cart.Payload | frontend/main.js:340 | one line per cart entry, in order, with the entry's id and quantity |
| Cart.CartQtyAddEntry | frontend/main.js:286-290 | adding raises the cart's count of that product by `q` and no other count |
| Cart.AddEntryKeepsUnique | frontend/main.js:279-290 | adding never makes a second entry for a product: an existing entry grows in place, otherwise one entry goes at the end |
| Cart.AddKeepsConserved | frontend/main.js:281-293 | a checked addition keeps cart units plus local stock equal to the loaded stock, and the local stock non-negative |
| Cart.PayloadRequests | frontend/main.js:340 | the request asks, for every product, for exactly the units the cart holds |
| Cart.CartIsFeasible | frontend/main.js:340 | a non-empty cart built on the page is an order the server creates, if no loaded product has lost stock |
| Cart.CartPage.constructor | frontend/main.js:237 | right after loading, the cart is empty and the local list is the loaded list |
| Cart.CartPage.AddToCart | frontend/main.js:260-300 | invalid input, an unlisted product, no units left, or too large a quantity each change nothing and give their message; otherwise the cart grows by the quantity and the local stock falls by it, keeping conservation |
| Cart.CartPage.Commit | frontend/main.js:286-293 | the units go into the product's entry or a new one at the end, and leave that product's local stock, keeping conservation |
| Cart.CartPage.Checkout | frontend/main.js:326-360 | an empty cart sends nothing and says so; otherwise the request is the cart's payload, and the cart is cleared exactly when the server created the order |

## Left out

- Cross-request concurrency and `select_for_update` row locking are not modelled. Requests run one after another, as the lock serializes them per product. `Orders.NoOversell` states the serialized case.
- Orders.Shop.Rollback: restores the id counters with everything else. A real database does not hand auto-increment ids back.
- The ten-digit limit of the money columns is not checked. Cents are unbounded, because what an overflow does depends on the database backend.
- Orders.Response.HttpStatus: gives the status code each branch writes. The endpoints return `(body, code)`, while django-ninja reads a returned pair as `(code, body)`, so in a running server those answers become a 500. The database effects are the same either way.
- Orders.RegisterKeepsEmailsUnique: compares emails and usernames as exact strings. `create_user` normalizes the email's domain and the username (Unicode NFKC) before saving, and hashes the password; none of this is modelled.
- Orders.Register: compares usernames as exact strings, so two usernames that are equal only after Unicode NFKC normalization give `Created` in the model, while in the source `create_user` stores the normalized name and the unique column raises an `IntegrityError`, a 500. An email that differs from a registered one only in the case of its domain passes the exact check at api/routers.py:180 in both, and is then stored normalized by `create_user`; the model stores it as given.
- A username that is already taken is modelled as the database error the unique column raises.
- Login.ObtainToken: `authenticate` and token issuing are total functions in the model. In the source a `ValueError` from either gives "Invalid encrypted data - decryption failed" (api/routers.py:148-149) and any other exception gives "Decryption error" (api/routers.py:150-151).
- Login.LoginResponse: leaves out the HTTP status the error schema is sent with.
- RSA key generation, the key file, the public-key endpoint and the base64 and PKCS#1 v1.5 algorithms are parameters. They are foreign cryptography and I/O.
- Utf8.PageEncode: the encryption library on the page is not part of this repository. The model follows its byte conversion of UTF-16 code units; its RSA padding is a parameter.
- The refresh endpoint, JWT validation (`JWTAuth`), `list_products`, `get_product` and `list_orders` are not part of this model. Authentication is given as the caller, or as its absence.
- RateLimit.RateLimiter.Check: runs as one step. In the source `cache.get` and `cache.set` (api/routers.py:62-73) are separate, unlocked calls, so concurrent requests from one client can all read the same list and all pass.
- RateLimit.RateLimiter.Check: the cache timeout is not modelled, so entries are kept for ever. `RateLimit.ExpiryChangesNothing` shows this decides the same, because an expired entry holds only times outside the window. The clock is the `now` parameter.
- RateLimit.Kept: times are exact reals. The source takes `time.time()` as a float and compares `req > now - period` in floating point (api/routers.py:63-66), so a time at the edge of the window can fall on either side after rounding; this is not modelled. `time.time()` is a wall clock that can go backwards, while `RateLimit.RollingWindow` assumes a clock that never does; with a clock that steps back, more than `limit` calls can pass within one period.
- RateLimit.WindowAdmitsExactlyLimit: holds for a cache that keeps entries until their timeout. A cache that evicts an entry early forgets its times and lets more calls through.
- Cart.CartPage.Checkout: the network answer is the `created` parameter. The page then reloads the product list (`cargarProductos`); the model takes the reloaded list to be the local one.
- `cargarProductos`, `mostrarCarrito`, the DOM, `fetch` and the token refresh of the page are not modelled. They are UI and network code.
- Product prices and descriptions on the page are not modelled. The cart does not use them.

## Findings

| source | as written | input that shows it | evidently intended | confidence | as-written member | corrected member |
|---|---|---|---|---|---|---|
| api/routers.py:222-228 | an unknown product id returns 404 from inside `@transaction.atomic` without marking rollback, so the order row (total 0.00) and the earlier lines' items and stock decrements are committed | product 1 priced 5.00 with stock 5; lines `[(1, 2), (99, 1)]` | every failure rolls the whole order back, as the decorator's comment and the other error branch do | not executed | Orders.PartialCommitBreaksTotals | Orders.AtomicKeepsTotals |
| frontend/main.js:130 | the page's encryption library converts each UTF-16 code unit on its own, so a character above U+FFFF is sent as two encoded surrogates; `password_bytes.decode('utf-8')` (api/routers.py:121) refuses them and the login answers "Invalid encrypted data - decryption failed" | a password containing U+1F600 | any password the user can type reaches `authenticate` unchanged, as it does when the page sends its UTF-8 encoding | not executed | Login.AstralPasswordIsRefused | Login.RecoveredPassword |

`Orders.Shop.CreateOrder` and `Orders.PlaceOrder` keep the code's
behaviour. `Orders.PlaceOrderAtomic` is the corrected transaction.
For passwords, `Login.PagePasswordRecovered` shows the page's bytes are
correct up to U+FFFF, and `Login.RecoveredPassword` (with
`Utf8.DecodeEncode`) is the round trip for UTF-8 bytes, which every
password completes.
