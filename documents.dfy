/**
  LangChain documents as the pipeline and the bot handle them: a page
  (or chunk) text plus a metadata dictionary, together with the two
  `os.path` helpers the pipeline calls and the rendering of a metadata
  value inside an f-string.
*/
module Documents {
  import opened Text

  /** A metadata value: the loader stores strings (`source`) and integers
      (`page`); a key read with `.get` and absent is `None`. */
  datatype Value = Str(s: string) | Int(n: int) | Null

  type Metadata = map<string, Value>

  /** The value of a document: `page_content` and `metadata`. */
  datatype Doc = Doc(content: string, metadata: Metadata)

  /** How `f"{v}"` prints a metadata value. */
  function Render(v: Value): string {
    match v
    case Str(s) => s
    case Int(n) => IntToString(n)
    case Null => "None"
  }

  /** `metadata.get(key)` rendered by an f-string, or `default` when the
      key is absent (`metadata.get(key, default)`). */
  function RenderOr(m: Metadata, key: string, default: string): string {
    if key in m then Render(m[key]) else default
  }

  /** `os.path.basename(p)`: what follows the last `/`. */
  function Basename(p: string): string {
    if p == [] || p[|p| - 1] == '/' then [] else Basename(p[..|p| - 1]) + [p[|p| - 1]]
  }

  /** The base name is the part of the path after its last `/`: a suffix
      holding no `/`, preceded by a `/` unless it is the whole path. */
  lemma BasenameIsLastComponent(p: string)
    ensures '/' !in Basename(p)
    ensures EndsWith(p, Basename(p))
    ensures |Basename(p)| < |p| ==> p[|p| - |Basename(p)| - 1] == '/'
  {
    BasenameNoSlash(p);
    BasenameSuffix(p);
  }

  lemma {:induction false} BasenameNoSlash(p: string)
    ensures '/' !in Basename(p)
    decreases |p|
  {
    if p != [] && p[|p| - 1] != '/' {
      BasenameNoSlash(p[..|p| - 1]);
    }
  }

  lemma {:induction false} BasenameSuffix(p: string)
    ensures EndsWith(p, Basename(p))
    ensures |Basename(p)| < |p| ==> p[|p| - |Basename(p)| - 1] == '/'
    decreases |p|
  {
    if p == [] || p[|p| - 1] == '/' {
      assert Basename(p) == [];
      assert p[|p| - 0..] == [];
    } else {
      BasenameSuffix(p[..|p| - 1]);
      BasenameStep(p);
    }
  }

  /** The induction step of `BasenameSuffix`: a last character other than
      `/` extends the base name of the rest of the path. */
  lemma BasenameStep(p: string)
    requires p != [] && p[|p| - 1] != '/'
    requires EndsWith(p[..|p| - 1], Basename(p[..|p| - 1]))
    requires |Basename(p[..|p| - 1])| < |p| - 1 ==>
      p[..|p| - 1][|p| - 1 - |Basename(p[..|p| - 1])| - 1] == '/'
    ensures EndsWith(p, Basename(p))
    ensures |Basename(p)| < |p| ==> p[|p| - |Basename(p)| - 1] == '/'
  {
    var q, c := p[..|p| - 1], p[|p| - 1];
    var b := Basename(q);
    InitLast(p);
    assert Basename(p) == b + [c];
    SuffixSnoc(q, c, b);
  }

  lemma InitLast<T>(p: seq<T>)
    requires p != []
    ensures p == p[..|p| - 1] + [p[|p| - 1]]
  {
  }

  /** A suffix `b` of `q` followed by `c` is a suffix of `q + [c]`, and what
      precedes it there is what precedes `b` in `q`. */
  lemma SuffixSnoc<T>(q: seq<T>, c: T, b: seq<T>)
    requires |b| <= |q| && q[|q| - |b|..] == b
    ensures (q + [c])[|q + [c]| - |b + [c]|..] == b + [c]
    ensures |b| < |q| ==> (q + [c])[|q + [c]| - |b + [c]| - 1] == q[|q| - |b| - 1]
  {
    assert (q + [c])[|q| - |b|..] == q[|q| - |b|..] + [c];
  }

  /** `os.path.join(root, name)` for two components. */
  function JoinPath(root: string, name: string): (r: string)
    ensures EndsWith(r, name)
  {
    if StartsWith(name, "/") then name
    else if root == [] || root[|root| - 1] == '/' then root + name
    else root + "/" + name
  }
}
