# Customer form validation, category grouping and API error payloads

A Dafny model of the three pieces of logic in a Northwind-style customer and
order web application that sit apart from its database access and its React
pages:

- **The add-customer form** (`CustomerForm`, from
  `src/app/components/AddCustomerForm.tsx`). `ValidateInput` maps a field name
  and a value to an optional error message. It runs four checks in order:
  blank after `trim`, shorter than 2, longer than 100, and a blocklist of SQL
  words matched case-insensitively (`select`, `insert`, `delete`, `update`)
  and symbols matched as written (`;`, `--`, `/*`). The submit handler runs the
  validator over the six fields in declaration order. `CollectErrorsWith` is
  that loop, written for any validator; it assigns each message that passes
  `if (error)` into a dictionary. `CollectErrors` runs it with `ValidateInput`.
  `HandleSubmit` is the gate: it sends the POST only when the dictionary is
  empty. `Acceptable` states, without the validator, which values pass, and
  `ValidateInputAcceptsIff` proves the two agree. `Trim`, `ToLower` and
  `Includes` model the ECMAScript string methods the validator uses.
- **Grouping products by category** (`ProductGrouping`, from
  `src/services/db/products.ts`). The `reduce` over the rows of the
  categories-LEFT-JOIN-products query is `GroupByCategory`. It is a loop over a
  local dictionary, proved against `Grouped`: for each category that occurs in
  the rows, the product names of its rows, in row order. A category without
  products contributes one row with a null product name (`None`). The lemmas
  prove the following properties of `Grouped`:
  - coverage: the keys are exactly the rows' categories;
  - order preservation: the lists follow row order;
  - no empty lists;
  - count conservation: the list lengths sum to the row count;
  - the one-row step: one more row appends to its own category's list and
    leaves every other key unchanged.
- **API error payloads** (`ApiErrors`, from `src/utils/api.ts`).
  `CreateErrorResponse` builds `{message, error, status}` with status 500 when
  none is given. `HandleApiError` maps a caught value to a payload with status
  500. For an `Error` it uses a fixed generic message and puts the `Error`'s
  own message in `error`. For anything else it reports an unknown error and
  leaves `error` absent.

`Wrappers` holds the `Option` type that stands for `undefined`, `null` and
omitted arguments.

The too-long message says "must be less than 100 characters", yet the check
rejects only lengths above 100, so a value of exactly 100 characters is
accepted. `ValidateInputAcceptsIff` states that bound as the code has it.

## Model

| member | source | states |
|---|---|---|
| `CustomerForm.TrimStart` | src/app/components/AddCustomerForm.tsx:15 | the leading part `trim` drops is all whitespace, and what is kept is a suffix starting with a non-whitespace character |
| `CustomerForm.TrimEnd` | src/app/components/AddCustomerForm.tsx:15 | the trailing part `trim` drops is all whitespace, and what is kept is a prefix ending with a non-whitespace character |
| `CustomerForm.Trim` | src/app/components/AddCustomerForm.tsx:15 | the trimmed value is no longer than the value and neither starts nor ends with whitespace |
| `CustomerForm.TrimIsSlice` | src/app/components/AddCustomerForm.tsx:15 | `trim` keeps one contiguous slice of the value and cuts only whitespace from either end |
| `CustomerForm.TrimEmptyIffBlank` | src/app/components/AddCustomerForm.tsx:15 | `!value.trim()` holds exactly when every character of the value is whitespace |
| `CustomerForm.ToLower` | src/app/components/AddCustomerForm.tsx:25-28 | `toLowerCase`, restricted to ASCII letters: keeps the length, maps `'A'..'Z'` to `'a'..'z'` and leaves every other character unchanged |
| `CustomerForm.Includes` | src/app/components/AddCustomerForm.tsx:25-31 | `includes` is true exactly when the pattern occurs at some index of the string |
| `CustomerForm.BlockedPatternIff` | src/app/components/AddCustomerForm.tsx:25-31 | the blocklist test fires exactly when a blocked word occurs in the lower-cased value or a blocked symbol occurs in the value |
| `CustomerForm.ValidateInput` | src/app/components/AddCustomerForm.tsx:14-35 | every message returned is non-empty (so the caller's truthiness test sees it), and an accepted value has length in [2, 100] |
| `CustomerForm.ValidateInputAcceptsIff` | src/app/components/AddCustomerForm.tsx:14-34 | the validator returns undefined exactly when the value is non-blank, its length is in [2, 100] (100 included) and it holds no blocked word or symbol |
| `CustomerForm.ValidateInputFirstFailure` | src/app/components/AddCustomerForm.tsx:14-34 | the first failing check decides the message: "is required" for blank values, then "at least 2", then "less than 100", then "Invalid input" |
| `CustomerForm.ValidationIgnoresName` | src/app/components/AddCustomerForm.tsx:25-33 | acceptance does not depend on the field name, and for a non-blank value of valid length neither does the message ("Invalid input" names no field) |
| `CustomerForm.EmptyValueIsRequired` | src/app/components/AddCustomerForm.tsx:15-20 | the empty string is reported as required, never as too short |
| `CustomerForm.PaddedShortValueAccepted` | src/app/components/AddCustomerForm.tsx:18-20 | the length check counts the untrimmed value, so `"  a"` is accepted |
| `CustomerForm.FieldOrderPositions` | src/app/components/AddCustomerForm.tsx:51-58 | the entries are iterated in declaration order and list each of the six fields exactly once |
| `CustomerForm.CollectErrorsWith` | src/app/components/AddCustomerForm.tsx:61-67 | the forEach assigns a key for exactly the fields whose validator result is a non-empty string (the truthiness test of `if (error)`), each holding that result |
| `CustomerForm.CollectErrors` | src/app/components/AddCustomerForm.tsx:60-67 | the error dictionary has a key for exactly the fields whose value fails validation, each holding that field's message |
| `CustomerForm.FieldErrorIffUnacceptable` | src/app/components/AddCustomerForm.tsx:60-67 | a field gets an error exactly when its value is not acceptable |
| `CustomerForm.HandleSubmit` | src/app/components/AddCustomerForm.tsx:60-81 | the POST is issued, with the data as submitted, exactly when no field has an error; otherwise a non-empty error dictionary of exactly the failing fields is shown and nothing is sent |
| `ProductGrouping.ProductsInSnoc` | src/services/db/products.ts:58-63 | one more row adds its product name at the end of its own category's list and nowhere else |
| `ProductGrouping.CategoryNamesSnoc` | src/services/db/products.ts:59-61 | one more row adds its category name to the set of keys |
| `ProductGrouping.ProductsInAbsent` | src/services/db/products.ts:59-60 | a category with no row has no products (its entry starts out empty) |
| `ProductGrouping.ProductsInAppend` | src/services/db/products.ts:58-64 | order preservation: grouping rows `a + b` gives, per category, `a`'s products followed by `b`'s |
| `ProductGrouping.GroupedSnoc` | src/services/db/products.ts:58-63 | processing one more row changes only that row's category entry, by appending one element (creating the entry if missing); all other keys are unchanged |
| `ProductGrouping.GroupedKeys` | src/services/db/products.ts:58-61 | every row's category is a key, and every key is some row's category |
| `ProductGrouping.RowContributes` | src/services/db/products.ts:51-62 | every row, including a null-product row from the LEFT JOIN, contributes its product name to its category's list |
| `ProductGrouping.GroupedNonEmpty` | src/services/db/products.ts:59-62 | every key's list is non-empty |
| `ProductGrouping.GroupedConservesCount` | src/services/db/products.ts:58-64 | the lengths of all lists sum to the number of rows: nothing dropped or duplicated |
| `ProductGrouping.GroupByCategory` | src/services/db/products.ts:57-64 | the reduce yields exactly the rows' categories as keys, each holding its rows' product names in row order; no list is empty and the lengths sum to the row count |
| `ApiErrors.CreateErrorResponse` | src/utils/api.ts:3-9 | message and error are copied unchanged; the status is the one given, or 500 when omitted |
| `ApiErrors.HandleApiError` | src/utils/api.ts:11-23 | the status is always 500; an `Error` yields the generic message with its own message as `error`; anything else yields the unknown-error message with no `error` |
| `ApiErrors.HandleApiErrorRecoversCaught` | src/utils/api.ts:14-22 | the payload has an `error` exactly for an `Error` input, and the caught value can be read back from the payload |

## Left out

- Database access is not modelled: pool acquisition and release, SQL execution, and the queries in `src/lib/db.ts`, `src/services/db/*.ts` and the API routes. They belong to the MySQL library and a live database. `GroupByCategory` takes the query's rows as its input.
- `getCustomerOrders` and `deleteCustomer` are re-exported by `src/services/db/index.ts`, and `createCustomer` and `deleteCustomer` are imported by `src/app/actions.ts`. None of them is defined in `src/services/db/customers.ts`, so none is modelled.
- The server actions in `src/app/actions.ts` are not modelled. They only wrap database calls in try/catch.
- Route registration and the pass-through middleware are not modelled.
- The React parts of the form are not modelled: `useState` updates, JSX rendering, the form reset, and the handling of the response to the POST. `HandleSubmit` ends at the decision to send the request and the body it would carry.
- `FormData.get` returning null for a missing input is not modelled. The form always renders all six inputs, so each value is taken to be a string.
- Logging (`console.*`) is left out.
- `CustomerForm.ValidateInput`: lengths are counted in characters. JavaScript counts UTF-16 code units, so a character outside the Basic Multilingual Plane counts 2 there and 1 here.
- `CustomerForm.ValidateInput`: `trim` uses the full ECMAScript whitespace and line-terminator set; `toLowerCase` is ASCII only, as the next line says.
- `CustomerForm.ToLower`: models `toLowerCase` for the ASCII letters only (`LowerChar`); full Unicode case mapping is not modelled, so a non-ASCII upper-case letter stays unchanged here. This does not change the blocklist's verdict. Only two non-ASCII code points lower-case to something containing an ASCII letter: U+0130 becomes `i` followed by U+0307, and no blocked word has `i` followed by U+0307; U+212A becomes `k`, which no blocked word contains. The blocked symbols are matched on the value as written.
- `ProductGrouping.GroupByCategory`: the JavaScript object used as the dictionary is modelled as a map, which has no order. The order of the object's keys (first occurrence, with integer-like names first) is not modelled. Keys that name inherited properties (such as `constructor`) are not modelled; for them `!acc[name]` would be false and `push` would throw. A null category name (which JavaScript would file under the key `"null"`) is not modelled.
- `ApiErrors.CreateErrorResponse`: the status, a JavaScript `number`, is modelled as an integer. A fractional, infinite or NaN status, which the function would copy unchanged, cannot be represented.
- `ApiErrors.HandleApiError`: the logging call is dropped. A non-`Error` thrown value is modelled without its contents, which the function never reads.
