/** Small containers shared by every module of the project. */
module Common {
  datatype Option<+T> = None | Some(value: T)

  datatype Result<+T, +E> = Ok(value: T) | Err(error: E)

  /** A udev property set or an attribute table: a missing name reads as "". */
  type Attributes = map<string, string>

  function Prop(attributes: Attributes, name: string): (value: string)
    ensures name in attributes ==> value == attributes[name]
    ensures name !in attributes ==> value == ""
  {
    if name in attributes then attributes[name] else ""
  }

  function Least(a: nat, b: nat): nat {
    if a < b then a else b
  }
}
