/** JSON values as `JSON.parse` produces them, and the handful of JavaScript
    property-access rules the patch engine relies on: truthiness, `typeof v === 'object'`,
    reading `c[k]`, storing `c[k] = x` and strict-mode `delete c[k]`. */
module Json {
  import opened Wrappers

  /** A JSON value. Object members are unordered, so an object is a map. A deep copy
      (`JSON.parse(JSON.stringify(x))`) of such a value is the value itself. */
  datatype Json =
    | JNull
    | JBool(b: bool)
    | JNumber(n: real)
    | JString(s: string)
    | JArray(items: seq<Json>)
    | JObject(fields: map<string, Json>)

  /** The empty object `{}`. */
  const Empty: Json := JObject(map[])

  /** JavaScript truthiness of a JSON value: `null`, `false`, `0` and `""` are falsy. */
  predicate Truthy(v: Json) {
    match v
    case JNull => false
    case JBool(b) => b
    case JNumber(n) => n != 0.0
    case JString(s) => s != ""
    case _ => true
  }

  /** `typeof v === 'object' && v !== null`: arrays and objects. */
  predicate IsObject(v: Json) {
    v.JArray? || v.JObject?
  }

  /** `ymap.get('doc') || {}`: the stored document when there is one and it is truthy,
      otherwise a fresh empty object. */
  function StartValue(stored: Option<Json>): (r: Json)
    ensures Truthy(r)
    ensures r == Empty || stored == Some(r)
    ensures stored.Some? && Truthy(stored.value) ==> r == stored.value
  {
    if stored.Some? && Truthy(stored.value) then stored.value else Empty
  }

  // ---------------------------------------------------------------------------
  // Array indices. A property key names an array element exactly when it is the
  // canonical decimal numeral of the index ("0", "1", "12", but not "01" or "1.0").

  predicate IsDigit(c: char) {
    '0' <= c <= '9'
  }

  function DigitValue(c: char): nat
    requires IsDigit(c)
  {
    (c as int) - ('0' as int)
  }

  function Digit(d: nat): char
    requires d < 10
  {
    (('0' as int) + d) as char
  }

  predicate AllDigits(s: string) {
    forall i :: 0 <= i < |s| ==> IsDigit(s[i])
  }

  /** Digits only, and no leading zero unless the numeral is "0" itself. */
  predicate IsCanonicalNumeral(s: string) {
    |s| > 0 && AllDigits(s) && (s[0] == '0' ==> |s| == 1)
  }

  function NumeralValue(s: string): nat
    requires AllDigits(s)
    decreases |s|
  {
    if |s| == 0 then 0 else NumeralValue(s[..|s| - 1]) * 10 + DigitValue(s[|s| - 1])
  }

  /** `String(n)` for a non-negative integer. */
  function NatToString(n: nat): (s: string)
    ensures IsCanonicalNumeral(s)
    ensures (s[0] == '0') == (n == 0)
    decreases n
  {
    if n < 10 then [Digit(n)] else NatToString(n / 10) + [Digit(n % 10)]
  }

  /** The array index that property key `k` denotes, if any. */
  function ArrayIndex(k: string): Option<nat> {
    if IsCanonicalNumeral(k) then Some(NumeralValue(k)) else None
  }

  lemma {:induction false} NumeralPositive(s: string)
    requires |s| > 0 && AllDigits(s) && s[0] != '0'
    ensures NumeralValue(s) > 0
    decreases |s|
  {
    if |s| > 1 {
      var p := s[..|s| - 1];
      assert p[0] == s[0];
      NumeralPositive(p);
    }
  }

  /** Every canonical numeral is the printed form of its own value. */
  lemma {:induction false} NumeralRoundTrip(s: string)
    requires IsCanonicalNumeral(s)
    ensures NatToString(NumeralValue(s)) == s
    decreases |s|
  {
    var last := s[|s| - 1];
    assert Digit(DigitValue(last)) == last;
    if |s| > 1 {
      var p := s[..|s| - 1];
      assert p[0] == s[0];
      assert IsCanonicalNumeral(p);
      NumeralPositive(p);
      NumeralRoundTrip(p);
      var n := NumeralValue(s);
      assert n / 10 == NumeralValue(p) && n % 10 == DigitValue(last);
      assert s == p + [last];
    } else {
      assert s == [last];
    }
  }

  /** Printing an index and reading it back as a property key gives the index again. */
  lemma {:induction false} IndexRoundTrip(n: nat)
    ensures ArrayIndex(NatToString(n)) == Some(n)
    decreases n
  {
    var s := NatToString(n);
    if n >= 10 {
      IndexRoundTrip(n / 10);
      assert s[..|s| - 1] == NatToString(n / 10);
      assert s[|s| - 1] == Digit(n % 10);
      assert NumeralValue(s) == (n / 10) * 10 + n % 10;
    } else {
      assert s == [Digit(n)];
      assert s[..0] == [];
    }
  }

  /** Two different keys never name the same array element. */
  lemma ArrayIndexInjective(a: string, b: string)
    requires ArrayIndex(a).Some? && ArrayIndex(a) == ArrayIndex(b)
    ensures a == b
  {
    NumeralRoundTrip(a);
    NumeralRoundTrip(b);
  }

  // ---------------------------------------------------------------------------
  // Property access on the JSON tree.

  /** `c[k]` when it is a JSON entry of `c`: a member of an object or an element of an
      array. Everything else `c[k]` can yield in JavaScript (undefined, a prototype
      method, an array's length, a character of a string) is not an object, which is
      all the patch walks ask of it. */
  function Child(c: Json, k: string): Option<Json> {
    match c
    case JObject(f) => if k in f then Some(f[k]) else None
    case JArray(xs) =>
      if ArrayIndex(k).Some? && ArrayIndex(k).value < |xs| then Some(xs[ArrayIndex(k).value]) else None
    case _ => None
  }

  /** `c[k] = x` is a plain store of a JSON entry: a member of an object (other than the
      prototype accessor `__proto__`), or an element of an array at an index up to its
      length (the length itself appends). */
  predicate Writable(c: Json, k: string) {
    match c
    case JObject(_) => k != "__proto__"
    case JArray(xs) => ArrayIndex(k).Some? && ArrayIndex(k).value <= |xs|
    case _ => false
  }

  /** `c[k] = x` on a container where it is Writable. */
  function Put(c: Json, k: string, x: Json): Json
    requires Writable(c, k)
  {
    match c
    case JObject(f) => JObject(f[k := x])
    case JArray(xs) =>
      var i := ArrayIndex(k).value;
      if i < |xs| then JArray(xs[i := x]) else JArray(xs + [x])
  }

  /** Storing at `k` makes `k` read back the stored value, leaves every other key as it
      was, and keeps the container an object or an array as it was. */
  lemma ChildOfPut(c: Json, k: string, x: Json, k2: string)
    requires Writable(c, k)
    ensures Child(Put(c, k, x), k2) == if k2 == k then Some(x) else Child(c, k2)
    ensures Put(c, k, x).JArray? == c.JArray? && IsObject(Put(c, k, x))
  {
    if c.JArray? && k2 != k && ArrayIndex(k2).Some? && ArrayIndex(k2) == ArrayIndex(k) {
      ArrayIndexInjective(k2, k);
    }
  }

  /** Deleting an existing array element would leave a hole, which JSON cannot hold. */
  predicate RemovesElement(c: Json, k: string) {
    c.JArray? && ArrayIndex(k).Some? && ArrayIndex(k).value < |c.items|
  }

  /** Strict-mode `delete c[k]`: `None` when it throws a TypeError, because `c` is
      `null` or the property is non-configurable (an array's or a string's `length`, a
      character of a string); otherwise the container afterwards. Deleting a property
      an array or a boolean, number or string does not have changes nothing. */
  function Remove(c: Json, k: string): (r: Option<Json>)
    requires !RemovesElement(c, k)
    ensures r.Some? ==> Child(r.value, k) == None
    ensures r.Some? ==> forall k2 :: k2 != k ==> Child(r.value, k2) == Child(c, k2)
    ensures r.Some? ==> r.value.JArray? == c.JArray? && r.value.JObject? == c.JObject?
    ensures r.Some? && !c.JObject? ==> r.value == c
    ensures r.None? <==> c.JNull? || (c.JArray? && k == "length") ||
                         (c.JString? && (k == "length" || (ArrayIndex(k).Some? && ArrayIndex(k).value < |c.s|)))
  {
    match c
    case JObject(f) => Some(JObject(f - {k}))
    case JArray(_) => if k == "length" then None else Some(c)
    case JString(s) =>
      if k == "length" || (ArrayIndex(k).Some? && ArrayIndex(k).value < |s|) then None else Some(c)
    case JNull => None
    case _ => Some(c)
  }
}
