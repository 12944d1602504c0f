/** The library functions the core calls but does not implement: JSON, base64
    (RFC 4648, section 4), UTF-8, Python's `ast.literal_eval` and AES-GCM. Each
    is a function-valued field, so a caller supplies any implementation; the
    laws an implementation must obey are ghost predicates that the lemmas
    needing them take as preconditions. Latin-1 encoding and the url-safe
    alphabet translation are simple enough to define outright. */
module Primitives {
  import opened Common

  /** A facial feature vector (numpy floats, modelled as reals). */
  type Vector = seq<real>

  /** The Python values `json.loads` and `ast.literal_eval` can produce, as far
      as the vector code distinguishes them. */
  datatype PyValue =
    | PyNone
    | PyBool(b: bool)
    | PyInt(i: int)
    | PyFloat(f: real)
    | PyStr(s: string)
    | PyList(items: seq<PyValue>)
    | PyOther

  /** `isinstance(x, (int, float))`. `bool` is a subclass of `int`, so
      `True` and `False` pass as well. */
  predicate IsNumber(x: PyValue)
  {
    x.PyBool? || x.PyInt? || x.PyFloat?
  }

  function NumberValue(x: PyValue): real
    requires IsNumber(x)
  {
    match x
    case PyBool(b) => if b then 1.0 else 0.0
    case PyInt(i) => i as real
    case PyFloat(f) => f
  }

  /** A list all of whose elements are numbers, read as a vector; anything
      else is not a vector. */
  function AsVector(x: PyValue): (r: Option<Vector>)
    ensures r.Some? <==> x.PyList? && forall i :: 0 <= i < |x.items| ==> IsNumber(x.items[i])
    ensures r.Some? ==> |r.value| == |x.items|
    ensures r.Some? ==> forall i :: 0 <= i < |r.value| ==> r.value[i] == NumberValue(x.items[i])
  {
    if x.PyList? && forall i :: 0 <= i < |x.items| ==> IsNumber(x.items[i]) then
      Some(seq(|x.items|, i requires 0 <= i < |x.items| => NumberValue(x.items[i])))
    else None
  }

  /** The Python list of floats a vector is: what `json.loads(json.dumps(v))` gives back. */
  function VectorValue(v: Vector): PyValue
  {
    PyList(seq(|v|, i requires 0 <= i < |v| => PyFloat(v[i])))
  }

  lemma VectorValueIsVector(v: Vector)
    ensures AsVector(VectorValue(v)) == Some(v)
  {
    var r := AsVector(VectorValue(v));
    assert r.Some?;
    assert r.value == v;
  }

  /** A character of the standard base64 alphabet, padding included
      (RFC 4648, section 4). */
  predicate IsBase64Char(ch: char)
  {
    ('A' <= ch <= 'Z') || ('a' <= ch <= 'z') || ('0' <= ch <= '9') || ch == '+' || ch == '/' || ch == '='
  }

  predicate IsBase64Text(s: string)
  {
    forall i :: 0 <= i < |s| ==> IsBase64Char(s[i])
  }

  /** Length of the padded base64 encoding of `n` bytes. */
  function Base64Length(n: nat): nat
  {
    4 * ((n + 2) / 3)
  }

  /** The text codecs the core relies on. */
  datatype Codecs = Codecs(
    jsonDumps: Vector -> string,
    jsonLoads: string -> Option<PyValue>,
    literalEval: string -> Option<PyValue>,
    utf8Encode: string -> Bytes,
    utf8Decode: Bytes -> Option<string>,
    b64Encode: Bytes -> string,
    b64Decode: string -> Option<Bytes>)

  /** The round-trip and alphabet laws of the text and byte codecs. `None`
      from a decoder stands for the exception it raises. */
  ghost predicate LawfulCodecs(c: Codecs)
  {
    && (forall s :: c.utf8Decode(c.utf8Encode(s)) == Some(s))
    && (forall bs :: c.b64Decode(c.b64Encode(bs)) == Some(bs))
    && (forall bs :: IsBase64Text(c.b64Encode(bs)))
    && (forall bs :: |c.b64Encode(bs)| == Base64Length(|bs|))
  }

  /** `json.loads(json.dumps(v))` gives back the list of floats `v`. The law
      is stated for one vector at a time: a vector holds mathematical reals,
      and no single function from all of them to strings is injective, while
      each vector the program handles is a list of finitely written floats. */
  ghost predicate JsonReadsBack(c: Codecs, v: Vector)
  {
    c.jsonLoads(c.jsonDumps(v)) == Some(VectorValue(v))
  }

  /** AES-GCM with no associated data: `seal(key, nonce, plaintext)` and
      `open(key, nonce, ciphertext)`, the latter `None` when the tag (or the
      nonce) is rejected. */
  datatype Aead = Aead(
    seal: (Bytes, Bytes, Bytes) -> Bytes,
    open: (Bytes, Bytes, Bytes) -> Option<Bytes>)

  /** Correctness, and integrity of ciphertexts: whatever opens was sealed
      under the same key and nonce. */
  ghost predicate LawfulAead(a: Aead)
  {
    && (forall k, n, pt :: a.open(k, n, a.seal(k, n, pt)) == Some(pt))
    && (forall k, n, ct :: a.open(k, n, ct).Some? ==> ct == a.seal(k, n, a.open(k, n, ct).value))
  }

  /** `s.encode('latin-1')`: one byte per character, failing on any character
      above U+00FF. */
  function Latin1Encode(s: string): (r: Option<Bytes>)
    ensures r.Some? <==> forall i :: 0 <= i < |s| ==> (s[i] as int) < 256
    ensures r.Some? ==> |r.value| == |s| && forall i :: 0 <= i < |s| ==> r.value[i] == s[i] as int
  {
    if |s| == 0 then Some([])
    else if (s[0] as int) >= 256 then None
    else
      match Latin1Encode(s[1..])
      case None => None
      case Some(rest) => Some([s[0] as int as Byte] + rest)
  }

  /** The translation `urlsafe_b64decode` applies before decoding: `-` becomes
      `+` and `_` becomes `/`. */
  function UrlsafeToStandard(s: string): (r: string)
    ensures |r| == |s|
    ensures forall i :: 0 <= i < |s| ==> r[i] == (if s[i] == '-' then '+' else if s[i] == '_' then '/' else s[i])
  {
    seq(|s|, i requires 0 <= i < |s| => if s[i] == '-' then '+' else if s[i] == '_' then '/' else s[i])
  }

  /** Standard base64 text is left alone by the url-safe translation, so
      `urlsafe_b64decode` reads it like `b64decode`. */
  lemma StandardTextIsUrlsafeFixpoint(s: string)
    requires IsBase64Text(s)
    ensures UrlsafeToStandard(s) == s
  {
  }
}
