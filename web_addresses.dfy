/**
 * The request handling of the SW_WCLDN_2015 demo plugin: it registers the
 * `sw_compare` query variable and, on the `request` filter, turns a
 * `compare/<name>+<name>+...` request into a query for the `sw_client`
 * posts with those names.
 */
module WebAddresses {
  import opened Wrappers
  import opened RequestVars
  import opened PhpStrings

  const SwCompare := "sw_compare"
  const SwJson := "sw_json"
  const SwClient := "sw_client"
  const PostIn := "post__in"
  const PostType := "post_type"

  /** The custom post type whose posts a compare request lists. */
  const ClientPostType := "sw_client"

  /** The character that separates client names in `sw_compare`. */
  const NameSeparator := '+'

  /**
   * The post store: the ids, in the order WordPress returns them, of the
   * `sw_client` posts whose name (slug) is the given one.  This stands for
   * `new WP_Query(['post_type' => 'sw_client', 'name' => $name, 'fields' => 'ids'])->posts`.
   */
  type Lookup = string -> seq<int>

  // ---------------------------------------------------------------- query_vars

  /** `filter_query_vars`: appends `sw_compare` to the public query variables. */
  function FilterQueryVars(queryVars: seq<string>): (r: seq<string>)
    ensures |r| == |queryVars| + 1
    ensures r[..|queryVars|] == queryVars && r[|queryVars|] == SwCompare
    ensures forall v :: v in r <==> v in queryVars || v == SwCompare
  {
    queryVars + [SwCompare]
  }

  // ----------------------------------------------------------- JSON endpoint

  /**
   * `fixup_json_endpoint_requests` on its own copy of the variables:
   * `sw_json` becomes `true` when both `sw_json` and `sw_client` are set,
   * and is removed otherwise; every other variable is kept.
   */
  function FixupJsonEndpointRequests(vars: Vars): (local: Vars)
    ensures SwJson in local <==> IsSet(vars, SwJson) && IsSet(vars, SwClient)
    ensures SwJson in local ==> local[SwJson] == Bool(true)
    ensures forall k :: k != SwJson ==> (k in local <==> k in vars)
    ensures forall k :: k != SwJson && k in vars ==> local[k] == vars[k]
  {
    if IsSet(vars, SwJson) && IsSet(vars, SwClient) then vars[SwJson := Bool(true)]
    else vars - {SwJson}
  }

  /** Normalising the JSON flag a second time changes nothing. */
  lemma FixupIdempotent(vars: Vars)
    ensures FixupJsonEndpointRequests(FixupJsonEndpointRequests(vars)) == FixupJsonEndpointRequests(vars)
  {
  }

  // --------------------------------------------------------- compare request

  /**
   * The ids found for each name in turn, concatenated without removing
   * duplicates: the `foreach` over the names with `array_merge`.  No id is
   * dropped, so there are exactly as many as all the lookups return together.
   */
  function ResolveNames(names: seq<string>, lookup: Lookup): (ids: seq<int>)
    ensures |ids| == MatchCount(names, lookup)
  {
    if names == [] then [] else lookup(names[0]) + ResolveNames(names[1..], lookup)
  }

  /** The number of ids found for all the names together. */
  function MatchCount(names: seq<string>, lookup: Lookup): (n: nat)
  {
    if names == [] then 0 else |lookup(names[0])| + MatchCount(names[1..], lookup)
  }

  /** Resolving two runs of names one after the other concatenates their results. */
  lemma {:induction false} ResolveNamesAppend(a: seq<string>, b: seq<string>, lookup: Lookup)
    ensures ResolveNames(a + b, lookup) == ResolveNames(a, lookup) + ResolveNames(b, lookup)
  {
    if a != [] {
      assert (a + b)[1..] == a[1..] + b;
      ResolveNamesAppend(a[1..], b, lookup);
    } else {
      assert a + b == b;
    }
  }

  /** One more name appends its ids at the end: the step of the loop over the names. */
  lemma ResolveNamesSnoc(names: seq<string>, name: string, lookup: Lookup)
    ensures ResolveNames(names + [name], lookup) == ResolveNames(names, lookup) + lookup(name)
  {
    ResolveNamesAppend(names, [name], lookup);
    assert [name][1..] == [];
  }

  /** An id is in the result exactly when the lookup of one of the names returns it. */
  lemma {:induction false} ResolveNamesMembership(names: seq<string>, lookup: Lookup, id: int)
    ensures id in ResolveNames(names, lookup) <==> exists i :: 0 <= i < |names| && id in lookup(names[i])
  {
    if names != [] {
      ResolveNamesMembership(names[1..], lookup, id);
      if id in ResolveNames(names[1..], lookup) {
        var i :| 0 <= i < |names[1..]| && id in lookup(names[1..][i]);
        assert names[i + 1] == names[1..][i];
      }
      if exists i :: 0 <= i < |names| && id in lookup(names[i]) {
        var i :| 0 <= i < |names| && id in lookup(names[i]);
        if i > 0 {
          assert names[1..][i - 1] == names[i];
        }
      }
    }
  }

  /**
   * The ids of the i-th name sit in the result, in their own order, right
   * after the ids of all the names before it.
   */
  lemma ResolveNamesSlice(names: seq<string>, lookup: Lookup, i: nat)
    requires i < |names|
    ensures var start := MatchCount(names[..i], lookup);
      start + |lookup(names[i])| <= |ResolveNames(names, lookup)| &&
      ResolveNames(names, lookup)[start .. start + |lookup(names[i])|] == lookup(names[i])
  {
    assert names == names[..i] + ([names[i]] + names[i + 1..]);
    ResolveNamesAppend(names[..i], [names[i]] + names[i + 1..], lookup);
    assert ([names[i]] + names[i + 1..])[1..] == names[i + 1..];
  }

  /**
   * The names a compare request lists: `explode('+', $vars['sw_compare'])`.
   * There is one more name than there are `+` signs, and joining the names
   * with `+` gives back `sw_compare`.
   */
  function CompareNames(compare: string): (names: seq<string>)
    ensures |names| == Occurrences(NameSeparator, compare) + 1
    ensures Implode(NameSeparator, names) == compare
  {
    ExplodeCount(NameSeparator, compare);
    ImplodeExplode(NameSeparator, compare);
    Explode(NameSeparator, compare)
  }

  /**
   * What `parse_compare_request` does to the variables.  Without
   * `sw_compare` nothing changes; otherwise `post__in` receives the ids of
   * every listed name and `post_type` becomes `sw_client`, and nothing else
   * changes.  An array in `sw_compare` makes `explode` throw.
   */
  function CompareRequest(vars: Vars, lookup: Lookup): (r: Result<Vars>)
    ensures !IsSet(vars, SwCompare) ==> r == Success(vars)
    ensures r.Failure? <==> IsSet(vars, SwCompare) && vars[SwCompare].Ids?
    ensures r.Success? && IsSet(vars, SwCompare) ==>
      PostIn in r.value && r.value[PostIn].Ids? &&
      PostType in r.value && r.value[PostType] == Str(ClientPostType)
    ensures r.Success? ==> forall k :: k != PostIn && k != PostType ==> (k in r.value <==> k in vars)
    ensures r.Success? ==> forall k :: k != PostIn && k != PostType && k in vars ==> r.value[k] == vars[k]
  {
    if !IsSet(vars, SwCompare) then Success(vars)
    else match StringArgument(vars[SwCompare])
      case None => Failure(TypeError)
      case Some(compare) =>
        var ids := ResolveNames(CompareNames(compare), lookup);
        Success(vars[PostIn := Ids(ids)][PostType := Str(ClientPostType)])
  }

  /**
   * The ids `sw_compare` puts in `post__in` when `explode` accepts it (a
   * string, or a boolean PHP turns into "1" or ""): for each `+`-separated
   * name in order, the ids the lookup gives for it, with nothing dropped or
   * merged.
   */
  lemma ComparePostIn(vars: Vars, lookup: Lookup, compare: string)
    requires IsSet(vars, SwCompare) && StringArgument(vars[SwCompare]) == Some(compare)
    ensures var names := CompareNames(compare);
      CompareRequest(vars, lookup).Success? &&
      CompareRequest(vars, lookup).value[PostIn] == Ids(ResolveNames(names, lookup)) &&
      |names| == Occurrences(NameSeparator, compare) + 1 &&
      Implode(NameSeparator, names) == compare &&
      |ResolveNames(names, lookup)| == MatchCount(names, lookup)
  {
  }

  /**
   * When no listed name matches a post, `post__in` is the empty list and
   * `post_type` is still set.  Names that are not listed may match posts.
   */
  lemma {:induction false} CompareNoMatches(vars: Vars, lookup: Lookup, compare: string)
    requires IsSet(vars, SwCompare) && StringArgument(vars[SwCompare]) == Some(compare)
    requires forall i :: 0 <= i < |CompareNames(compare)| ==> lookup(CompareNames(compare)[i]) == []
    ensures CompareRequest(vars, lookup) ==
      Success(vars[PostIn := Ids([])][PostType := Str(ClientPostType)])
  {
    NoMatchesResolveEmpty(CompareNames(compare), lookup);
  }

  /**
   * `compare/alice+bob`: one lookup per name, the ids of `alice` first and
   * then both ids of `bob`.
   */
  lemma CompareTwoNames(lookup: Lookup)
    requires lookup("alice") == [10] && lookup("bob") == [20, 21]
    ensures var vars := map[SwCompare := Str("alice+bob")];
      CompareRequest(vars, lookup) ==
        Success(vars[PostIn := Ids([10, 20, 21])][PostType := Str(ClientPostType)])
  {
    var vars := map[SwCompare := Str("alice+bob")];
    var names := ["alice", "bob"];
    assert Explode(NameSeparator, "alice+bob") == names by {
      assert '+' !in names[0] && '+' !in names[1];
      assert Implode(NameSeparator, names[1..]) == "bob";
      assert Implode(NameSeparator, names) == "alice+bob";
      ExplodeImplode(NameSeparator, names);
    }
    assert ResolveNames(names, lookup) == [10, 20, 21] by {
      assert ResolveNames(names[1..][1..], lookup) == [];
      assert ResolveNames(names[1..], lookup) == [20, 21];
    }
    ComparePostIn(vars, lookup, "alice+bob");
  }

  /**
   * Empty names are kept: an empty `sw_compare` is one empty name, and a
   * doubled `+` puts an empty name between its neighbours.
   */
  lemma CompareNamesKeepsEmptyNames()
    ensures CompareNames("") == [""]
    ensures CompareNames("a++b") == ["a", "", "b"]
  {
    var names := ["a", "", "b"];
    assert Implode(NameSeparator, names[2..]) == "b";
    assert Implode(NameSeparator, names[1..]) == "+b";
    assert Implode(NameSeparator, names) == "a++b";
    ExplodeImplode(NameSeparator, names);
  }

  lemma {:induction false} NoMatchesResolveEmpty(names: seq<string>, lookup: Lookup)
    requires forall i :: 0 <= i < |names| ==> lookup(names[i]) == []
    ensures ResolveNames(names, lookup) == []
  {
    if names != [] {
      assert forall i :: 0 <= i < |names[1..]| ==> names[1..][i] == names[i + 1];
      NoMatchesResolveEmpty(names[1..], lookup);
    }
  }

  /**
   * `parse_compare_request`: `$vars` is passed by reference, so the
   * variables come in as `vars` and go out as the result.  The loop issues
   * one lookup per name and appends its ids (`array_merge`).
   */
  method ParseCompareRequest(vars: Vars, lookup: Lookup) returns (r: Result<Vars>)
    ensures r == CompareRequest(vars, lookup)
  {
    if !IsSet(vars, SwCompare) {
      return Success(vars);
    }
    var compare := StringArgument(vars[SwCompare]);
    if compare.None? {
      return Failure(TypeError);
    }
    var names := Explode(NameSeparator, compare.value);
    var postIds: seq<int> := [];
    for i := 0 to |names|
      invariant postIds == ResolveNames(names[..i], lookup)
    {
      ResolveNamesSnoc(names[..i], names[i], lookup);
      assert names[..i + 1] == names[..i] + [names[i]];
      postIds := postIds + lookup(names[i]);
    }
    assert names[..|names|] == names;
    r := Success(vars[PostIn := Ids(postIds)][PostType := Str(ClientPostType)]);
  }

  // ---------------------------------------------------------- request filter

  /**
   * `filter_request` as written: outside the admin screens it calls the
   * JSON fixup and then the compare parser.  The fixup receives `$vars` by
   * value, so its normalisation is lost; the variables returned, `sw_json`
   * included, are those the compare parser leaves.
   */
  method FilterRequest(vars: Vars, isAdmin: bool, lookup: Lookup) returns (r: Result<Vars>)
    ensures isAdmin ==> r == Success(vars)
    ensures !isAdmin ==> r == CompareRequest(vars, lookup)
    ensures r.Success? ==> (SwJson in r.value <==> SwJson in vars)
    ensures r.Success? && SwJson in vars ==> r.value[SwJson] == vars[SwJson]
  {
    r := Success(vars);
    if !isAdmin {
      var local := FixupJsonEndpointRequests(vars);
      r := ParseCompareRequest(vars, lookup);
    }
  }

  /**
   * The fixup's work never reaches the caller: for a JSON request for a
   * client whose `sw_json` is the empty string the fixup computes `true`,
   * yet the variables the filter returns still hold the empty string; and a
   * `sw_json` without `sw_client`, which the fixup removes, is returned too.
   */
  lemma FixupDiscardedAsWritten(lookup: Lookup)
    ensures var vars := map[SwJson := Str(""), SwClient := Str("acme")];
      FixupJsonEndpointRequests(vars)[SwJson] == Bool(true) &&
      CompareRequest(vars, lookup) == Success(vars) && vars[SwJson] == Str("")
    ensures var vars := map[SwJson := Str("")];
      SwJson !in FixupJsonEndpointRequests(vars) &&
      CompareRequest(vars, lookup) == Success(vars)
  {
  }

  /**
   * `filter_request` as its documentation intends, with the fixup applied
   * to the variables that are returned (`$vars` by reference).
   */
  method FilterRequestByReference(vars: Vars, isAdmin: bool, lookup: Lookup) returns (r: Result<Vars>)
    ensures isAdmin ==> r == Success(vars)
    ensures !isAdmin ==> r == CompareRequest(FixupJsonEndpointRequests(vars), lookup)
    ensures !isAdmin && r.Success? ==>
      (SwJson in r.value <==> IsSet(vars, SwJson) && IsSet(vars, SwClient)) &&
      (SwJson in r.value ==> r.value[SwJson] == Bool(true))
    ensures !isAdmin ==> (r.Failure? <==> IsSet(vars, SwCompare) && vars[SwCompare].Ids?)
  {
    r := Success(vars);
    if !isAdmin {
      var fixed := FixupJsonEndpointRequests(vars);
      r := ParseCompareRequest(fixed, lookup);
    }
  }
}
