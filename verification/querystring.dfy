/** Query strings as `URLSearchParams` exposes them, read with `get` and
    written with `set` / `delete`. A name maps to the value `get` returns,
    its first value; repeated names (`?page=2&page=3`) are not modelled. */
module QueryString {
  import opened Wrappers

  type Params = map<string, string>

  /** `params.get(name)`: the value, or `None` for `null`. */
  function Get(params: Params, name: string): (r: Option<string>)
    ensures r.Some? <==> name in params
    ensures r.Some? ==> r.value == params[name]
  {
    if name in params then Some(params[name]) else None
  }

  /** `params.get(name) || default`: an absent or empty value reads as `default`. */
  function GetOr(params: Params, name: string, default: string): (r: string)
    ensures r == default || (name in params && r == params[name] != "")
    ensures name in params && params[name] != "" ==> r == params[name]
  {
    if name in params && params[name] != "" then params[name] else default
  }

  /** `params.set(name, value)` when `keep`, otherwise `params.delete(name)`;
      every other name is left as it was. */
  function SetOrDelete(params: Params, name: string, value: string, keep: bool): (r: Params)
    ensures keep ==> name in r && r[name] == value
    ensures !keep ==> name !in r
    ensures forall k :: k != name ==> (k in r <==> k in params) && (k in r ==> r[k] == params[k])
  {
    if keep then params[name := value] else params - {name}
  }
}
