/** The three-way comparison result of Rust's `std::cmp::Ordering`. */
module Orderings {
  datatype Ordering = Less | Equal | Greater
  {
    /** The result of the comparison with its operands exchanged. */
    function Reverse(): (r: Ordering)
      ensures r.Equal? <==> this.Equal?
      ensures r.Less? <==> this.Greater?
    {
      match this
      case Less => Greater
      case Equal => Equal
      case Greater => Less
    }
  }

  function CompareInt(a: int, b: int): (r: Ordering)
    ensures r.Less? <==> a < b
    ensures r.Equal? <==> a == b
    ensures r.Greater? <==> a > b
  {
    if a < b then Less else if a == b then Equal else Greater
  }

  lemma CompareIntReverse(a: int, b: int)
    ensures CompareInt(b, a) == CompareInt(a, b).Reverse()
  {
  }
}
