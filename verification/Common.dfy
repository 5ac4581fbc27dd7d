/** Small vocabulary shared by every module. */
module Common {
  datatype Option<+T> = None | Some(value: T)

  function Min(a: nat, b: nat): nat {
    if a <= b then a else b
  }

  /**
   What a part of the system looks like at successive instants. A run looks at
   finitely many instants, so "after the recorded ones, nothing changes any more"
   excludes no behaviour.
   */
  datatype Timeline<+T> = Timeline(changing: seq<T>, final: T) {
    function At(t: nat): T {
      if t < |changing| then changing[t] else final
    }
  }
}
