# Inventory, orders and accounts: a Dafny model

This project models the logic under the three front-ends of a small
CSV-backed inventory and order tool:

- the account store of `auth.py`: the users table (`Username`,
  `PasswordHash`, `Admin`, `Compromised`) with its self-healing bootstrap
  administrator, sign-up with a breach check, login (`SUCCESS`, `WARNING`,
  `FAIL`), password change, admin toggle, deletion, and read-once messages;
- the salted hashing and the Have I Been Pwned range lookup of
  `CLI/auth.py`;
- the product catalog of `products.py` and order creation in `orders.py`,
  which takes stock from the catalog;
- the in-memory product list of both `InventoryManager` classes
  (`inventory_manager.py` for the GUI, `CLI/inventory_manager.py` for the
  console): append, case-insensitive search, and a stable keyed sort;
- the username validator and the request checks and status codes of the
  `login` and `add_order` routes of `api.py`.

Each CSV file is the logical content of a class field: missing, empty, or a
sequence of rows. An operation that loads a table, changes it and writes it
back is a method that reassigns that field, and its `ensures` states the
new content in terms of the old. Cells hold the text pandas writes, so a
Python bool reads back as `"True"` or `"False"`.

SHA-1 and SHA-256 (FIPS 180-4) are an opaque pair of functions
(`Crypto.Hashes`). `os.urandom(16)` is a parameter. The breach service is a
`Pwned.RangeApi` object: it has a fixed reply per URL and logs every URL
requested, so contracts can say whether the service was consulted, and
with what. In `api.py`, `authenticate_user`, `create_order` and
`create_access_token` are function parameters. `float()` in the inventory
sort is the parameter `toFloat`. Python's `str.split`, `str.splitlines`,
`str.strip`, `str.lower`, `in` on strings, `int()`, `str()` of an int,
`bytes.fromhex`, `bytes.hex` and UTF-8 encoding are defined in `Text` and
`Bytes`. Prices and order totals are whole cents.

Modules: `Wrappers`, `Seqs`, `Text`, `Bytes`, `Crypto`, `Pwned` (shared
breach-check pieces), `CliAuth` (CLI/auth.py), `Accounts` (auth.py),
`Products`, `Orders`, `StableSort` (Python's `sorted`), `Inventory`
(inventory_manager.py and what the CLI version shares with it),
`CliInventory`, `Api`.

Some behaviours of the code worth knowing, which the model follows:

- `auth.py` stores the bare SHA-256 hex digest of the password, with no
  salt (auth.py:74, 86, 128).
- `create_user` refuses a leaked password outright (auth.py:71-72).
- `check_pwned_password` sends the empty password to the breach service like
  any other (CLI/auth.py:33-47).
- `raise_for_status` raises only for statuses 400 to 599, so a 1xx or 3xx
  reply is scanned like a 200 (CLI/auth.py:47).

## Model

| member | source | states |
|---|---|---|
| Text.SplitLines | CLI/auth.py:50 | `splitlines()` yields lines free of line-break characters; an empty text gives no lines; a text with no break gives itself |
| Text.SplitJoin | CLI/auth.py:52 | `split(':')` gives pieces with no `:` that join back to the line, one more piece than there are colons |
| Text.IntToStringRoundTrip | CLI/auth.py:54 | `int(str(n)) == n` for every integer |
| Text.ParseIntWithoutMinus | CLI/auth.py:54 | `int()` of a text with no minus sign is never negative |
| Bytes.FromHexToHex | CLI/auth.py:19-25 | `bytes.fromhex(b.hex()) == b`: the salt string returned decodes to the salt bytes |
| Bytes.ToHexFromHex | CLI/auth.py:17-25 | a plain hex string always decodes, and re-encoding gives it back in lower case |
| Crypto.Sha256Hex | CLI/auth.py:22 | `hexdigest()` has two lower-case hex digits per digest byte |
| Pwned.FingerprintSplit | CLI/auth.py:39-41 | the upper-case SHA-1 hex of a 20-byte digest is 40 upper-case hex digits; the prefix has 5, the suffix 35, and prefix + suffix is the whole |
| Pwned.RangeApi.Get | CLI/auth.py:46 | a request is appended to the request log and answered with the reply for that URL |
| CliAuth.HashPassword | CLI/auth.py:9-25 | succeeds exactly when the salt decodes; the digest is the SHA-256 hex of the salt bytes followed by the UTF-8 password; with no salt the returned salt is the hex of the 16 random bytes (32 characters); the returned salt always decodes back to the salt bytes used and is lower-case hex |
| CliAuth.VerifyPassword | CLI/auth.py:27-31 | fails exactly when the stored salt does not decode; otherwise true iff the re-hash equals the stored hash |
| CliAuth.HashThenVerify | CLI/auth.py:9-31 | a password hashed with a fresh salt verifies against the salt and hash produced, whatever randomness verification draws |
| CliAuth.TextSaltReencoded | CLI/auth.py:17-25 | a plain hex salt is returned lower-cased, and the digest equals the digest for the decoded salt bytes |
| CliAuth.CountScanResult | CLI/auth.py:50-56 | the scan returns 0 when every line is `OTHER:COUNT`, otherwise the outcome of the first line that is not (its count, or ValueError when it does not split in two or the count is not an integer) |
| CliAuth.CountInReply | CLI/auth.py:45-60 | a transport error or a 4xx/5xx status gives -1 |
| CliAuth.ResultAtLeastMinusOne | CLI/auth.py:47-60 | when the body has no minus sign, any returned value is at least -1 |
| CliAuth.CheckPwnedPassword | CLI/auth.py:33-60 | exactly one request, to the range URL with the 5-character prefix only; the result is the scan of that URL's reply against the suffix |
| Accounts.FirstIndex | auth.py:127 | the index of the first row with that username |
| Accounts.WithAdminColumn | auth.py:42-43 | every row gets Admin False, nothing else changes |
| Accounts.KeepLastSameUsers | auth.py:49 | dropping duplicates keeps the set of usernames |
| Accounts.KeepLastUnique | auth.py:49 | after dropping duplicates no username occurs twice |
| Accounts.KeepLastKeepsLastRows | auth.py:49 | `keep='last'`: a row value survives iff it is the value of a row that is the last with its username; the result is a subsequence of the table |
| Accounts.KeepLastIsLastRows | auth.py:49 | `keep='last'` position by position: the result is exactly the rows that are the last with their username, in table order |
| Accounts.AppendKeepsNamesUnique | auth.py:66-80 | appending a row whose username is absent keeps usernames unique, which is what the "already exists" check protects |
| Accounts.KeepLastKeepsFinal | auth.py:44-49 | the appended admin row survives `keep='last'` and is the only row with its name |
| Accounts.RepairEstablishesAdmin | auth.py:20-50 | after `init_files` the users file is a table with an Admin column and an "admin" row |
| Accounts.RepairedAdminIsUnique | auth.py:37-50 | when repair runs, exactly one "admin" row remains, it is the bootstrap row with Admin True, and names are unique |
| Accounts.RepairKeepsUsers | auth.py:40-49 | repair loses no existing username |
| Accounts.RepairKeepsLastRows | auth.py:39-49 | repair keeps each user's last row other than "admin", unchanged or with `Admin` "False" when the column was added |
| Accounts.RepairIdempotent | auth.py:25-50 | a second `init_files` changes nothing |
| Accounts.LeakScanFindsHit | auth.py:111-114 | the scan answers true iff some line is `SUFFIX:x` and every line before it splits into two parts |
| Accounts.LoginOutcome | auth.py:83-99 | without a match on the first row's stripped hash the answer is (FAIL, False, None); with one it is WARNING iff leaked, else SUCCESS, with the row's parsed Admin flag and the token |
| Accounts.LoginFailureIsUninformative | auth.py:87-99 | an unknown user and a wrong password give the same answer; the leak check's answer matters only after a match |
| Accounts.HashHexStrips | auth.py:90-91 | a stored hex digest is unchanged by `strip()` |
| Accounts.CreatedUserCanLogIn | auth.py:74-99 | after sign-up the user logs in (SUCCESS or WARNING, not admin) with that password, and fails with any password of another digest |
| Accounts.Toggled | auth.py:143-145 | the new Admin cell parses to the negation of the old flag; the other cells are kept |
| Accounts.ToggleTwice | auth.py:143-145 | two toggles restore the parsed flag |
| Accounts.WithoutUserSpec | auth.py:157-158 | deletion leaves no row with the name, keeps every other row as often as it occurred and in order, and changes nothing for an absent name |
| Accounts.SentMessageIsDelivered | auth.py:170-183 | a sent message is the last one its recipient reads; other users' messages are unaffected |
| Accounts.ReadMessagesAreGone | auth.py:183-186 | after reading, no message for that user remains, and every other user's row is kept as often as it occurred and in order |
| Accounts.AuthStore.InitFiles | auth.py:20-53 | the users file becomes the repaired file; the messages file is created empty if missing |
| Accounts.AuthStore.LoadUsers | auth.py:56-62 | returns the repaired rows, which always contain "admin" |
| Accounts.AuthStore.CheckPasswordLeakApi | auth.py:102-117 | one request to the range URL of the password; the answer is the scan of the reply, false unless the status is 200 |
| Accounts.AuthStore.CreateUser | auth.py:65-80 | an existing name fails with no leak request; a leaked password fails with the table only repaired; otherwise one row (name, SHA-256 hex, False, "Non") is appended and SUCCESS returned, keeping usernames unique when they were |
| Accounts.AuthStore.AuthenticateUser | auth.py:83-99 | the answer is the login outcome on the repaired rows; the table is only repaired; the leak check is requested iff the hash matched |
| Accounts.AuthStore.ChangePassword | auth.py:120-133 | a leaked password fails before any file is touched; otherwise only the first matching row's hash and Compromised ("Non") change, and an unknown user fails |
| Accounts.AuthStore.ToggleAdminStatus | auth.py:136-149 | "admin" is refused with no file touched; otherwise the first matching row's flag is negated, the message names the new role, and an unknown user fails |
| Accounts.AuthStore.DeleteUser | auth.py:152-161 | "admin" is refused with no file touched; an existing user loses all its rows and True is returned; an absent one gives False |
| Accounts.AuthStore.SendMessage | auth.py:164-172 | one row appended at the end of the message table |
| Accounts.AuthStore.GetUserMessages | auth.py:175-187 | returns the user's messages in file order and removes exactly those rows; nothing is rewritten when there are none |
| Products.FirstIndex | products.py:47 | the index of the first row with that name |
| Products.AddKeepsNamesUnique | products.py:33-40 | appending a product with a new name keeps names unique |
| Products.UpdateCanDuplicateNames | products.py:46-51 | renaming a product to another's name yields two rows with one name |
| Products.WithoutProductSpec | products.py:60-61 | deletion leaves no row with the name and keeps every other row as often as it occurred and in order |
| Products.ProductCatalog.InitProductsCsv | products.py:12-19 | a missing file is created with no rows; otherwise nothing changes |
| Products.ProductCatalog.LoadProducts | products.py:22-28 | returns the rows (none for an empty file) |
| Products.ProductCatalog.AddProduct | products.py:31-40 | a present name gives False and no change; a new one appends one row and gives True |
| Products.ProductCatalog.UpdateProduct | products.py:43-54 | an absent name gives False and no change; otherwise all four cells of the first matching row, and nothing else, are overwritten |
| Products.ProductCatalog.DeleteProduct | products.py:57-64 | True and every row with the name removed, or False and no change |
| Orders.AppendKeepsIdsSequential | orders.py:54-55 | appending the order with ID count + 1 keeps IDs 1, 2, 3, ... |
| Orders.DecrementKeepsStockNonNegative | orders.py:51-67 | taking at most the available stock keeps every stock non-negative |
| Orders.OrderBook.LoadOrders | orders.py:17-25 | returns the orders, creating an empty file if missing |
| Orders.OrderBook.CreateOrder | orders.py:28-72 | the checks run in order (product, quantity format, sign, stock), each failure with its message and nothing changed; success sets the first matching product's stock to stock - quantity, appends one order (ID count + 1, client, product, quantity, price × quantity), and keeps sequential IDs and non-negative stock |
| StableSort.OrderedIsTotalOrder | inventory_manager.py:63-67 | the key order is reflexive, total, transitive and antisymmetric, in both directions |
| StableSort.SortPermutes | inventory_manager.py:63-67 | the sorted pairs are a permutation of the input |
| StableSort.SortPermutesValues | inventory_manager.py:63-67 | the sorted items are a permutation of the input items |
| StableSort.SortSorts | inventory_manager.py:63-67 | the output is non-decreasing by key, non-increasing with `reverse` |
| StableSort.SortIsStable | inventory_manager.py:63-67 | items with equal keys keep their relative order |
| StableSort.SortOfSorted | inventory_manager.py:63-67 | a sorted input is returned unchanged |
| StableSort.SortIdempotent | inventory_manager.py:63-67 | sorting twice by the same key equals sorting once |
| Inventory.Search | inventory_manager.py:52-58 | exactly the products whose lower-cased name contains the lower-cased query, each as often as in the list, in list order |
| Text.SubstringAtOffset | inventory_manager.py:56 | `query in name` holds iff the query occurs in the name at some offset |
| Inventory.SearchEmptyQuery | inventory_manager.py:56 | an empty query returns every product |
| Inventory.Decorate | inventory_manager.py:63-65 | succeeds iff every product has a usable key, and then pairs each product with its key in list order; otherwise the error is the first failing product's |
| Inventory.SortedProductsSpec | inventory_manager.py:60-71 | fails iff some product lacks the key or has a non-numeric price/qty; otherwise a permutation ordered by key, stable for every key, and sorting again changes nothing |
| Inventory.InventoryManager.AddProduct | inventory_manager.py:38-43 | the product is appended at the end; the printed line names it |
| Inventory.InventoryManager.DisplayProducts | inventory_manager.py:45-50 | the list itself |
| Inventory.InventoryManager.SearchProduct | inventory_manager.py:52-58 | the result is `Search` on the current list (so exactly the matching products, with multiplicity, in list order), and the list is not changed |
| Inventory.InventoryManager.SortProducts | inventory_manager.py:60-71 | the list becomes the sorted list with lower-cased name keys, or stays as it was on an error |
| CliInventory.InventoryManager.AddProduct | CLI/inventory_manager.py:38-43 | the product is appended at the end; the printed line names it |
| CliInventory.InventoryManager.DisplayLines | CLI/inventory_manager.py:45-54 | a notice for an empty list; otherwise header, one numbered line per product in order, footer |
| CliInventory.InventoryManager.SearchProduct | CLI/inventory_manager.py:56-62 | the result is `Search` on the current list (so exactly the matching products, with multiplicity, in list order), and the list is not changed |
| CliInventory.InventoryManager.SortProducts | CLI/inventory_manager.py:64-80 | the list becomes the sorted list with raw name keys, or stays on KeyError/ValueError; the message tells which |
| Api.WordRun | api.py:43 | the length of the leading run of `[a-zA-Z0-9_]` characters |
| Api.IsValidUsernameSpec | api.py:36-43 | accepted iff a non-empty run of word characters, alone or followed by one final newline |
| Api.LoginCheck | api.py:60-73 | missing fields give 400 "Champs manquants"; a non-string username gives a 500; an invalid username gives 400; a valid username goes ahead with the two strings of the body exactly when the password is a string, and otherwise gives a 500 |
| Api.Login | api.py:55-96 | FAIL gives 401; otherwise 200 with message, token and is_admin, and the `alert` key exactly for WARNING |
| Api.LoginRejectsBeforeAuthentication | api.py:63-77 | a rejected request gets the same 400 whatever authentication would answer |
| Api.Truncate | api.py:212 | `int()` of a float truncates toward zero |
| Api.OrderCheck | api.py:205-218 | missing fields give 400; a quantity `int()` rejects with ValueError gives 400 and one it rejects with TypeError gives a 500; a quantity of at most 0 gives 400; a positive integer quantity goes ahead with the product and that quantity, so the order layer only ever receives a positive quantity |
| Api.AddOrder | api.py:202-224 | 201 with the order layer's message on success, 409 with it on failure |
| Api.AddOrderRejectsBeforeCreate | api.py:207-220 | a rejected request gets the same answer whatever the order layer would do |

## Left out

- File I/O, pandas and the CSV format: a file is its logical content. A malformed CSV (`ParserError` when `init_files` re-reads the file, auth.py:40-46), a users file without a `Username` column, and a zero-byte orders file (which `pd.read_csv` rejects) are not modelled.
- pandas type inference: the cells of the users, messages and inventory tables are text, and the catalog's `Prix` and `Quantité` are numbers. A username or product name that pandas would read as a number is not modelled.
- Orders.OrderBook.CreateOrder: the catalog's `Prix` and `Quantité` are typed as whole numbers. So the uncaught ValueError that `int(record["Quantité"])` or `float(record["Prix"])` raises for a non-numeric or empty cell is not modelled (orders.py:40-41, before the quantity check). Such cells can reach the file through the API's product routes, which store any value.
- SHA-1, SHA-256 and `os.urandom` are parameters. The HTTP timeout and the exact transport exceptions are folded into `TransportError`.
- Flask routing, the JSON decoder, JWT creation and `dotenv` are left out. A body that is JSON but not an object (a list, a string) is not modelled. An exception that Flask turns into a 500 is `InternalError`.
- Floating point: prices and totals are whole cents, `float()` sort keys are an abstract parser, and NaN and infinities are not modelled. `Api.Truncate` does not model `int()` of NaN or infinity.
- The order date (`pd.Timestamp.now()`) is omitted from the order row.
- Unicode case mapping: `lower()`/`upper()` change only ASCII letters. `int()` accepts only ASCII digits.
- Console output of `_load_products` on a missing file and of `check_pwned_password`'s error message is not modelled. The lines both managers print from `add_product`, and the CLI manager's display and sort lines, are returned as values.
- `_save_products`: writing the list back to its CSV file is not modelled; the list field is the file's content.
- Inventory.InventoryManager.AddProduct: a product with a key the first product lacks makes `csv.DictWriter` raise ValueError in `_save_products`, after the append. That exception is not modelled (inventory_manager.py:26-42).
- CliInventory.InventoryManager.AddProduct: the same uncaught ValueError after the append is not modelled (CLI/inventory_manager.py:25-42).
- CliInventory.InventoryManager.SortProducts: the same ValueError from `_save_products` comes after `self.products = sorted_list`. It is caught, so the list stays sorted but the conversion-error line is printed instead of the success line. The model prints the success line (CLI/inventory_manager.py:68-80). In the GUI version the error is silent, so `Inventory.InventoryManager.SortProducts` is exact.
- The front-ends (`gui.py`, `cli.py`, `main.py`, `CLI/main.py`), `stats.py` and `config.py` are not part of this model.
- CliAuth.ResultAtLeastMinusOne: holds only when the reply body has no minus sign; a negative count in the body is returned as it is.
- CliAuth.CheckPwnedPassword: the uncaught ValueError of a malformed line is an outcome value (`RaisesValueError`), not an exception.
- Api.LoginCheck: a non-string username or password is reported as `InternalError`. A non-string username raises TypeError in `re.match` (api.py:43) before any authentication. A non-string password raises only inside `authenticate_user`, after it has reloaded (and possibly repaired) the users file; that reload is not modelled.
