# City list and weather request of a React Native weather screen

This project models, in Dafny, the logic of the single screen of a small
React Native weather app (App.js). The screen keeps an ordered list of cities,
each an `{id, name}` entry, and shows one weather card per entry. Three
handlers change the list:

- `addCity` appends an entry whose `id` is the list's current length and whose
  `name` is whatever the dialog's text field holds;
- `deleteCity(id)` keeps every entry whose `id` differs from the given one;
- `getData` replaces the whole list by the one read from device storage, but
  only when a value was stored; read errors are caught and only logged.

Each card builds its weather request by concatenating the endpoint, the city
name, fixed format and unit parameters, and the API key.

Layout:

- `wrappers.dfy` (module `Wrappers`): the `Option` datatype.
- `city_list.dfy` (module `CityList`): the `City` entry, `AddCity` and
  `DeleteCity` as functions on `seq<City>`, and the lemmas about them.
- `registry.dfy` (module `Registry`): class `App`, whose field `cities` is the
  screen's state; its methods reassign it as the handlers call `setCities`.
  The storage read is a parameter of type `StoredValue`.
- `forecast.dfy` (module `Forecast`): the request string, a function that
  recovers the city from it, and a lemma showing that the unencoded city makes
  the string ambiguous.

The model follows the code as written, including these behaviours:

- Delete removes every entry with the given id, not only the first one.
- Add accepts any name, the empty string included; nothing is validated.
- Ids are list lengths, so they collide after a deletion (`IdCollision`).
- The city is put into the URL verbatim, with no percent-encoding.
- The list is read from storage after the screen mounts and again after
  every change of `cities` (App.js:151-153), including changes made by the
  read itself.

## Model

| member | source | states |
|---|---|---|
| CityList.AddCity | App.js:113-121 | the new list is one longer, its prefix is the old list unchanged and in order, and its last entry has the old length as id and the given name, whatever the name (no validation) |
| CityList.DeleteCity | App.js:127-130 | the result is no longer than the input, and an entry is in it exactly when it is in the input and its id differs from the deleted one (every matching entry goes, not just the first) |
| CityList.DeleteCount | App.js:128 | every entry with the deleted id occurs zero times afterwards; every other entry keeps exactly its number of occurrences |
| CityList.DeleteKeepsOrder | App.js:128 | the result is the input's entries at a strictly increasing list of positions, unchanged, and that list includes every position whose id differs from the deleted one |
| CityList.DeleteAppend | App.js:128 | deleting from a concatenation equals deleting from each part, parts kept in order |
| CityList.DeleteUnchangedIff | App.js:128 | delete leaves the list unchanged if and only if no entry carries the id |
| CityList.DeleteIdempotent | App.js:128 | deleting an id twice equals deleting it once |
| CityList.DeletePreservesDistinct | App.js:128 | if the ids were distinct before a delete, they are distinct after it |
| CityList.DeleteOnly | App.js:128 | deleting the id of an entry that no other entry carries removes that entry and leaves the entries before and after it as they were |
| CityList.DeleteDistinctAt | App.js:127-129 | with distinct ids, deleting the id of the entry at position k removes exactly that entry |
| CityList.AddDistinctIff | App.js:113-120 | with distinct ids, an add keeps them distinct if and only if no entry already has the list length as id |
| CityList.AddThenDelete | App.js:113-130 | deleting the id of an entry just added gives back the list from before the add, when no older entry had that id |
| CityList.AddsFromEmpty | App.js:107-120 | from the initial empty list, a run of adds gives the entry at each position i the id i and the i-th name, so all ids are distinct |
| CityList.IdCollision | App.js:113-130 | add a, add b, delete id 0, add c gives [{1,b},{1,c}]: two entries share id 1, and deleting id 1 then removes both |
| Registry.App.constructor | App.js:107 | the screen starts with an empty list |
| Registry.App.AddCity | App.js:113-121 | the new list is `AddCity` of the old one: one longer, old entries kept as a prefix |
| Registry.App.DeleteCity | App.js:127-130 | the new list is `DeleteCity` of the old one: exactly the old entries with another id |
| Registry.App.GetData | App.js:140-149 | a stored value replaces the list; on no stored value or a caught read or parse error the list is unchanged |
| Forecast.RequestUrl | App.js:46-49 | the request is the endpoint prefix, then the city verbatim, then "&mode=json&units=metric&appid=", then the key text: the environment variable's value, or "undefined" when it is unset; the length is that of the four parts together |
| Forecast.CityOfRequestUrl | App.js:46-49 | the city can be read back from the request built for it, between the endpoint and the fixed parameters |
| Forecast.UnescapedCityAmbiguous | App.js:48 | a city containing the fixed parameters followed by k1, with key k2, gives the same request as the plain city with key k1 + parameters + k2 |

## Left out

- Rendering: the JSX tree, styles, the dialog's visibility flag, the card keys taken from render indices (App.js:51-101, 155-243). These are presentation only.
- The `cityName` text-field binding (App.js:106, 191): the name the dialog holds is passed to `AddCity` as a parameter.
- The weather fetch through the `useAxios` hook, its loading, error and refetch states (App.js:47-56): a network call into a library whose code is not part of this model. Only the request string is modelled.
- The log line written when a read or parse error is caught (App.js:147): `GetData` models the caught error as leaving the list unchanged, not the console output.
- Device storage and JSON: `AsyncStorage.getItem` and `JSON.parse` (App.js:142-144) are replaced by the `StoredValue` parameter of `GetData`. A parse failure is folded into `ReadError`. The model assumes the stored JSON has the `{id, name}` shape and does not capture other shapes.
- `storeData` (App.js:132-138): no code calls it, and the method it calls, `AsyncStorage.setCities`, is not part of the storage interface.
- The effect that calls `getData` again each time `cities` changes (App.js:151-153): this is React scheduling. `GetData` models one call of the handler.
- Ids are JavaScript numbers; the model uses unbounded integers, which agree with them for every list length a device can hold.
- The environment lookup `process.env.React_APP_API_KEY` (App.js:45) is input: the key arrives as an `Option<string>` parameter, `None` standing for an unset variable.
