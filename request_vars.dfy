/**
 * The request variables WordPress hands to the `request` filter: a PHP
 * array from variable name to value.
 */
module RequestVars {
  import opened Wrappers

  /** The values that occur among the request variables. */
  datatype Value =
    | Null
    | Bool(b: bool)
    | Str(s: string)
    /**
     * A PHP array.  Its elements are post ids, as `post__in` holds; it also
     * stands for any other array (say `?sw_compare[]=alice`), whose
     * elements the model never inspects.
     */
    | Ids(ids: seq<int>)

  type Vars = map<string, Value>

  /**
   * PHP's `isset($vars[key])`: a missing key is not set, and neither is a
   * key whose value is null.
   */
  predicate IsSet(vars: Vars, key: string)
    ensures IsSet(vars, key) ==> key in vars
    ensures key in vars ==> (IsSet(vars, key) <==> !vars[key].Null?)
  {
    key in vars && vars[key] != Null
  }

  /**
   * The string PHP passes to a built-in such as `explode` for a value:
   * booleans become "1" and "", an array is refused with a TypeError.
   */
  function StringArgument(v: Value): (r: Option<string>)
    ensures r.None? <==> v.Ids?
    ensures v.Str? ==> r == Some(v.s)
  {
    match v
    case Null => Some([])
    case Bool(b) => Some(if b then "1" else "")
    case Str(s) => Some(s)
    case Ids(_) => None
  }
}
