# WCLDN 2015 web addresses plugin: request filtering

This project models the request handling of the `SW_WCLDN_2015` WordPress demo plugin, written in Dafny. The plugin hooks two WordPress filters:

* `query_vars`: registers the public query variable `sw_compare`.
* `request`: this filter does two things outside the admin screens:
  * It calls a fixup meant to set `sw_json` to `true` for a client's JSON request. The fixup takes `$vars` by value, so the returned variables keep `sw_json` as it came in (see "## Findings").
  * It turns a `compare/<name>+<name>+…` request into a query. It sets `post__in` to the ids of the listed names, in the order listed, and `post_type` to `sw_client`.

Modules:

* `Wrappers` (`wrappers.dfy`): `Option`, and a `Result` that carries the PHP error a request can die with.
* `PhpStrings` (`php_strings.dfy`): PHP's `explode` on a one-character separator, with `implode` as its inverse.
* `RequestVars` (`request_vars.dfy`): the request variables, modelled as `map<string, Value>`. `Value` is null, a boolean, a string or an array. The array constructor `Ids` holds a list of post ids, as `post__in` does. It also stands for any other PHP array, such as the array of strings that `?sw_compare[]=alice` gives, because the model only needs to know that such a value is an array. The module also models PHP's `isset` and the string coercion `explode` applies to its argument.
* `WebAddresses` (`web_addresses.dfy`): the plugin's filters.

How the PHP is modelled:

* `$vars` is passed to `parse_compare_request` by reference. The method takes the variables as input and returns the updated variables.
* Its `foreach` loop over the names is a Dafny `for` loop. The loop is proved against the specification function `CompareRequest`.
* `WP_Query` is out of scope. Each per-name query is a parameter `lookup: string -> seq<int>`, from a name to the ids of the matching `sw_client` posts. Any such function is allowed, so a name may match zero, one or several posts.
* `is_admin()` is a boolean parameter.

## Model

| member | source | states |
|---|---|---|
| `WebAddresses.FilterQueryVars` | wcldn-2015-web-addresses.php:56-59 | the result is the input list with `sw_compare` added as one extra last element; every earlier entry is unchanged; its elements are exactly the old ones plus `sw_compare` |
| `PhpStrings.Explode` | wcldn-2015-web-addresses.php:151 | `explode` always yields at least one piece and no piece contains the separator |
| `PhpStrings.ImplodeExplode` | wcldn-2015-web-addresses.php:151 | joining the pieces of `explode` with the separator gives back the original string |
| `PhpStrings.ExplodeCount` | wcldn-2015-web-addresses.php:151 | the number of pieces is the number of separators plus one, so `""` gives `[""]` |
| `PhpStrings.ExplodeImplode` | wcldn-2015-web-addresses.php:151 | exploding the join of a non-empty list of separator-free pieces gives back that list |
| `WebAddresses.CompareNamesKeepsEmptyNames` | wcldn-2015-web-addresses.php:151 | empty names are not filtered: `""` gives `[""]` and `a++b` gives `a`, `""`, `b` |
| `RequestVars.StringArgument` | wcldn-2015-web-addresses.php:151 | the string argument of `explode` is refused exactly when the value is an array; a string is passed as it is |
| `WebAddresses.ResolveNamesAppend` | wcldn-2015-web-addresses.php:156-169 | resolving two runs of names one after the other gives the concatenation of their ids, with no merging |
| `WebAddresses.ResolveNamesSnoc` | wcldn-2015-web-addresses.php:161-169 | one more pass of the loop appends that name's ids after those already collected (`array_merge`) |
| `RequestVars.IsSet` | wcldn-2015-web-addresses.php:148 | PHP's `isset`: a missing key is not set, and neither is a key holding null, so a null `sw_compare` (line 148) or `sw_json` (line 132) counts as absent |
| `WebAddresses.CompareNames` | wcldn-2015-web-addresses.php:151 | `explode('+', $vars['sw_compare'])`: one more name than there are `+` signs, and the names rejoined with `+` give back `sw_compare` |
| `WebAddresses.ResolveNames` | wcldn-2015-web-addresses.php:156-169 | the `foreach`/`array_merge` fold over the names: the collected ids are exactly as many as all the lookups returned together, so nothing is de-duplicated |
| `WebAddresses.ResolveNamesMembership` | wcldn-2015-web-addresses.php:156-169 | an id is collected if and only if the lookup of one of the names returns it |
| `WebAddresses.ResolveNamesSlice` | wcldn-2015-web-addresses.php:156-169 | the ids of the i-th name appear, in their own order, right after the ids of all earlier names |
| `WebAddresses.CompareRequest` | wcldn-2015-web-addresses.php:147-172 | without `sw_compare` the variables are unchanged. With it, `post_type` is `sw_client` and `post__in` is an id list. Only `post__in` and `post_type` can change; `sw_compare` and every other key keep their values. The call fails exactly when `sw_compare` holds an array |
| `WebAddresses.ComparePostIn` | wcldn-2015-web-addresses.php:151-170 | for an `sw_compare` that `explode` accepts (a string, or a boolean PHP turns into `"1"` or `""`), `post__in` is the in-order concatenation of the lookups of its `+`-separated names. The names number one more than the `+` signs and rejoin to `sw_compare`. The length of `post__in` is the sum of the per-name counts |
| `WebAddresses.CompareNoMatches` | wcldn-2015-web-addresses.php:156-171 | when none of the listed names matches a post (names not listed may match), `post__in` is the empty list and `post_type` is still `sw_client` |
| `WebAddresses.CompareTwoNames` | wcldn-2015-web-addresses.php:151-171 | `alice+bob`, with `alice` giving `[10]` and `bob` giving `[20, 21]`, yields `post__in = [10, 20, 21]` and `post_type = sw_client` |
| `WebAddresses.ParseCompareRequest` | wcldn-2015-web-addresses.php:147-172 | the loop of one lookup per name, appending each result, computes exactly `CompareRequest` |
| `WebAddresses.FixupJsonEndpointRequests` | wcldn-2015-web-addresses.php:131-137 | in the fixup's own copy, `sw_json` is present exactly when both `sw_json` and `sw_client` are set, and is then `true`; every other key is untouched |
| `WebAddresses.FixupIdempotent` | wcldn-2015-web-addresses.php:131-137 | applying the fixup twice gives the same variables as applying it once |
| `WebAddresses.FilterRequest` | wcldn-2015-web-addresses.php:70-76 | on an admin screen the variables come back unchanged. Otherwise they are the result of the compare parser. Either way `sw_json` comes back exactly as it came in, present or absent |
| `WebAddresses.FixupDiscardedAsWritten` | wcldn-2015-web-addresses.php:129-137 | in two cases the fixup's result differs from what `filter_request` returns. With an empty `sw_json` and a client, the fixup computes `true` but `""` is returned. With `sw_json` and no client, the fixup removes `sw_json` but it is returned |
| `WebAddresses.FilterRequestByReference` | wcldn-2015-web-addresses.php:70-76 | `filter_request` with the fixup applied to the returned variables. Outside admin, `sw_json` is returned exactly when both flags were set, and then as `true`. The compare result is otherwise the same |

## Findings

| source | as written | input that shows it | evidently intended | confidence | as-written member | corrected member |
|---|---|---|---|---|---|---|
| wcldn-2015-web-addresses.php:131 | `fixup_json_endpoint_requests( $vars )` takes the array by value, so the change it makes to `sw_json` is lost when it returns, and `filter_request` returns `sw_json` untouched | `sw_json = ""`, `sw_client = "acme"`: the filter returns `sw_json = ""`, not `true`; `sw_json = ""` alone: the filter still returns `sw_json` | the doc comment at line 129 says the variables are passed by reference, as in `parse_compare_request( & $vars )` at line 147, so the normalised flag should reach the returned variables | high (not executed) | `WebAddresses.FixupDiscardedAsWritten` | `WebAddresses.FilterRequestByReference` |

`WebAddresses.FilterRequest` models the code as written. `WebAddresses.FilterRequestByReference` is the corrected filter, proved against the fixup's contract.

## Left out

- Plugin lifecycle is not modelled: the singleton `init` (lines 26-34), the constructor's hook registration (lines 40-44) and `action_init` (lines 84-86). They only hand callbacks to WordPress.
- `init_clients` (lines 96-122) is not modelled. It passes the post type, the JSON endpoint and the compare rewrite rule to WordPress as configuration values. WordPress's rewrite engine, which matches the URL against the rule, is not part of this model.
- `WP_Query` is not part of this model. It is replaced by the `lookup` parameter. The model does not fix which ids a name gives, so it also covers what WordPress does for an empty name.
- The order of the posts WordPress returns is not modelled. The code sets no `orderby`, so WordPress's default order applies to the posts. Only the ids inside `post__in` are in the listed order.
- `is_admin()` is a parameter. How WordPress then reads an empty `post__in` is not part of this model.
- Storage failures inside `WP_Query` are not modelled. The only error modelled is PHP 8's `TypeError` from `explode` when `sw_compare` holds an array. Older PHP versions warn and return `null` instead; that behaviour is not modelled.
- Request variables are a `map`: the insertion order of PHP array keys is not modelled. Only the values of the keys are.
- `explode` splits characters rather than bytes. The separator `+` is ASCII, so the pieces are the same for UTF-8 text.
