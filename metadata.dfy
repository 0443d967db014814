/** The LangChain `Document` as the pipeline sees it: page text plus a
    metadata dict whose values are strings, integers, `None` or some other
    Python value known only by its `str()`. */
module Metadata {
  import opened Text

  datatype Value = Str(s: string) | Int(n: int) | NoneValue | Other(repr: string)

  type Meta = map<string, Value>

  datatype Document = Document(metadata: Meta, pageContent: string)

  /** `str(v)`, which is also what an f-string substitutes. */
  function Render(v: Value): string {
    match v
    case Str(s) => s
    case Int(n) => IntToString(n)
    case NoneValue => "None"
    case Other(r) => r
  }

  /** `m.get(k, d)`. */
  function Get(m: Meta, k: string, d: Value): Value {
    if k in m then m[k] else d
  }

  /** `m.setdefault(k, d)` as a change of the dict. */
  function SetDefault(m: Meta, k: string, d: Value): (r: Meta)
    ensures r.Keys == m.Keys + {k}
    ensures r[k] == (if k in m then m[k] else d)
    ensures forall j | j in m :: r[j] == m[j]
  {
    if k in m then m else m[k := d]
  }

  /** `m.update(u)`: the entries of `u` win. */
  function Update(m: Meta, u: Meta): (r: Meta)
    ensures r.Keys == m.Keys + u.Keys
    ensures forall j | j in u :: r[j] == u[j]
    ensures forall j | j in m && j !in u :: r[j] == m[j]
  {
    m + u
  }
}
