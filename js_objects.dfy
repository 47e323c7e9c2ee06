/** Two pieces of JavaScript semantics that the dashboard helpers rely on:
    reading `obj[key]` from an object literal, which also finds the members
    every plain object inherits from Object.prototype, and
    String.prototype.toLowerCase on the ASCII letters. */
module JsObjects {
  /** The names a plain object inherits from Object.prototype. */
  const ObjectPrototypeMembers: set<string> := {
    "constructor", "__defineGetter__", "__defineSetter__", "hasOwnProperty",
    "__lookupGetter__", "__lookupSetter__", "isPrototypeOf", "propertyIsEnumerable",
    "toString", "valueOf", "__proto__", "toLocaleString"
  }

  /** What `obj[key]` yields: an own property, an inherited member (a function, or
      Object.prototype itself for `__proto__`; every one of them is truthy), or
      undefined. */
  datatype Lookup<V> = Own(value: V) | Inherited(member: string) | Undefined

  /** `obj[key]` on an object literal whose own properties are `own`. */
  function LookupProperty<V>(own: map<string, V>, key: string): (r: Lookup<V>)
    ensures r.Own? <==> key in own
    ensures r.Own? ==> r.value == own[key]
    ensures r.Inherited? <==> key !in own && key in ObjectPrototypeMembers
    ensures r.Inherited? ==> r.member == key
  {
    if key in own then Own(own[key])
    else if key in ObjectPrototypeMembers then Inherited(key)
    else Undefined
  }

  function LowerChar(c: char): char {
    if 'A' <= c <= 'Z' then (c as int + 32) as char else c
  }

  /** toLowerCase on the ASCII letters; every other character is kept. */
  function ToLowerCase(s: string): (r: string)
    ensures |r| == |s|
    ensures forall i :: 0 <= i < |s| ==> r[i] == LowerChar(s[i])
  {
    if |s| == 0 then [] else [LowerChar(s[0])] + ToLowerCase(s[1..])
  }

  /** The upper-case form of a lower-case ASCII letter. */
  function UpperChar(c: char): char {
    if 'a' <= c <= 'z' then (c as int - 32) as char else c
  }

  /** `s` spells `word` with any mix of upper and lower case. */
  predicate IsCasingOf(s: string, word: string) {
    |s| == |word| && forall i :: 0 <= i < |s| ==> s[i] == word[i] || s[i] == UpperChar(word[i])
  }

  predicate IsLowerCase(word: string) {
    forall i :: 0 <= i < |word| ==> !('A' <= word[i] <= 'Z')
  }

  /** Lower-casing a lower-case string changes nothing. */
  lemma LowerCaseFixed(word: string)
    requires IsLowerCase(word)
    ensures ToLowerCase(word) == word
  {
    var r := ToLowerCase(word);
    assert forall i :: 0 <= i < |word| ==> r[i] == word[i];
  }

  /** Lower-casing any casing of a lower-case word gives the word back. */
  lemma LowerCasing(s: string, word: string)
    requires IsCasingOf(s, word) && IsLowerCase(word)
    ensures ToLowerCase(s) == word
  {
    var r := ToLowerCase(s);
    forall i | 0 <= i < |s|
      ensures r[i] == word[i]
    {
      assert LowerChar(s[i]) == word[i];
    }
  }
}
