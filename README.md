# Shopping-cart store: adding a product

A model of the cart store of a storefront front end (`src/hooks/useCart.tsx`). The
cart is an ordered list of products keyed by `id`, each entry carrying the
quantity held (`amount`). The store keeps the list in memory and mirrors it under
the durable storage key `@RocketShoes:cart`. Adding a product:

1. finds the first entry with that id;
2. asks the remote stock endpoint for the product's stock ceiling;
3. takes as desired quantity the entry's amount plus one, or 1 when the id is absent;
4. refuses, leaving everything as it was, when the desired quantity exceeds the ceiling;
5. otherwise bumps the found entry, or fetches the product's display data and
   appends it with amount 1;
6. stores the new list in memory, then writes it under the storage key.

A failed remote request is caught, and nothing changes. A write to the storage key
that throws is caught too. By then the in-memory list has already been replaced, so
memory and storage then disagree.

Files:

- `wrappers.dfy`: module `Wrappers`, the `Option` type that stands for a remote request
  that either answered or threw.
- `cart.dfy`: module `Cart`. It holds the entities (`Product`, `ProductData`, `Stock`,
  `Status`), the specification function `AddToCart` and the helpers it is built from.
  It also holds the class `CartStore`, whose fields `cart` and `persisted` are the
  in-memory list and the storage key. Its method `AddProduct` updates them step by
  step, as the hook does, and is proved to agree with `AddToCart`.
- `cart_properties.dfy`: module `CartProperties`, lemmas about `AddToCart`.

The two remote lookups are parameters of `AddProduct`: the stock answer
(`GET /stock/{id}`) and the product answer (`GET /products/{id}`). Each is `None`
when the request failed. A third parameter, `written`, says whether the write to the
storage key went through. When it did not, the in-memory list is still replaced, the
key keeps its old contents, and the status is `Failed`. The product answer is consulted only when the id is
absent from the cart, as in the source. Product display attributes are an opaque
type parameter `D`.

The new entry is built from the product endpoint's answer with the amount added. Its
id is therefore the id the endpoint returned, not the id that was asked for. The
model keeps this. The lemma that ids stay unique assumes the endpoint answers with an
id not already in the cart. The lemma `AnsweredIdCanRepeat` shows two entries with the
same id when it does not.

## Model

| member | source | states |
|---|---|---|
| `Cart.FirstIndexOf` | src/hooks/useCart.tsx:40 | the index returned holds the id and no earlier entry does; none is returned exactly when no entry holds the id |
| `Cart.DesiredAmount` | src/hooks/useCart.tsx:48-54 | the desired quantity is the first matching entry's amount plus one, or exactly 1 when the id is absent |
| `Cart.SetAmount` | src/hooks/useCart.tsx:62-64 | updating the found entry changes only its amount; length and every other entry are unchanged |
| `Cart.AddToCart` | src/hooks/useCart.tsx:35-81 | an add succeeds exactly when the stock lookup answered, the desired amount is within the ceiling, and the id is present or the product lookup answered; otherwise the cart is unchanged; on success the length grows by one only when the id was absent |
| `Cart.CartStore.constructor` | src/hooks/useCart.tsx:25-33 | the list starts as the stored list, or empty when the key holds nothing; memory and storage then agree |
| `Cart.CartStore.AddProduct` | src/hooks/useCart.tsx:35-81 | the new in-memory list is that of `AddToCart` on the old list. The status is `AddToCart`'s, except `Failed` when the storage write throws. The key gets the new list only when the add succeeds and the write goes through; otherwise it keeps its old contents. With a working write, memory and key stay in agreement |
| `CartProperties.FirstIndexIsOnlyIndex` | src/hooks/useCart.tsx:40 | in a cart with unique ids the entry found is the only one with that id |
| `CartProperties.OutOfStockIffOverCeiling` | src/hooks/useCart.tsx:43-59 | the stock refusal happens exactly when the stock lookup answered and the desired amount exceeds its ceiling |
| `CartProperties.OverStockIsRefused` | src/hooks/useCart.tsx:57-59 | a desired amount above the stock ceiling yields OutOfStock with the cart unchanged |
| `CartProperties.FailedLookupKeepsCart` | src/hooks/useCart.tsx:36-80 | a failed stock lookup, or a failed product lookup for an absent id, ends with the generic failure `Failed` and the cart unchanged |
| `CartProperties.PresentIsBumped` | src/hooks/useCart.tsx:62-64 | with enough stock, adding a present id increases its first entry's amount by exactly 1 and leaves length and all other entries unchanged |
| `CartProperties.AbsentIsAppended` | src/hooks/useCart.tsx:66-74 | with stock of at least 1, adding an absent id appends the fetched product with amount 1 after the old entries in order |
| `CartProperties.AddKeepsIdsUnique` | src/hooks/useCart.tsx:40-74 | if no two entries shared an id before, none do after, given that a product lookup, when consulted, answers with an id not already in the cart |
| `CartProperties.AnsweredIdCanRepeat` | src/hooks/useCart.tsx:66-73 | the appended entry takes the id the product lookup answered: cart [{id 1}], adding id 2 with the answer id 1, gives two entries with id 1 |
| `CartProperties.AddRespectsStock` | src/hooks/useCart.tsx:57-74 | after a successful add the touched entry holds the desired amount, which is at most the stock ceiling |
| `CartProperties.AddKeepsAmountsPositive` | src/hooks/useCart.tsx:51-73 | if every entry's amount was positive before an add, every entry's amount is positive after |
| `CartProperties.ExampleRefusedAtCeiling` | src/hooks/useCart.tsx:54-59 | cart [{id 1, amount 2}] with stock 2: adding id 1 is refused and the cart is kept |
| `CartProperties.ExampleFirstAdd` | src/hooks/useCart.tsx:66-77 | empty cart, stock 3, product 5 fetched: the cart becomes [{product 5, amount 1}] |

## Left out

- `removeProduct` and `updateProductAmount` (src/hooks/useCart.tsx:83-100): their bodies are empty placeholders, so there is no behaviour to model.
- The HTTP client `api.get` (lines 43, 67): foreign I/O. Its answers are parameters of `AddProduct`, with `None` for a request that threw.
- Why `localStorage.setItem` (line 77) throws, for example when storage is full or disabled: browser behaviour. Only whether it threw is modelled, as the `written` parameter of `AddProduct`.
- The `toast.error` notices (lines 58, 79): user-interface side effects. `AddProduct` returns a `Status` instead: `OutOfStock` for the stock notice and `Failed` for the generic one.
- Reading and decoding the storage key in the initializer, and `JSON.stringify` on write (lines 25-33, 77): browser storage and JSON. The constructor takes the already decoded list, and the key is modelled as an `Option` holding the list itself. A key whose text does not parse (which throws in the source) is not modelled.
- React context, provider and hook wiring (lines 22, 24, 102-115): framework glue.
- Interleaving of concurrent `addProduct` calls at their `await` points, and closures over a stale `cart`: each call is modelled as one atomic method.
- Aliasing: line 37 copies the list shallowly, so line 63 also changes the entry object shared with the previous state. The model produces a new list and leaves the old one as it was.
- JavaScript numbers: ids and amounts are unbounded integers. Fractional, missing or non-numeric stock amounts are not modelled. For example, a missing amount makes the comparison at line 57 false in the source.
- The id in the stock answer (`Stock.id`) is carried but unused, as in the source.
- `CartProperties.AddKeepsIdsUnique`: proved only when the product lookup, when consulted, answers with an id not already in the cart. The source builds the new entry from the lookup's answer and does not check this; `CartProperties.AnsweredIdCanRepeat` shows the duplicate that results otherwise.
