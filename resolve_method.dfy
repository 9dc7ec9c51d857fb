/**
 * `WisperNext::Subscriber::ResolveMethod.call(name, prefix)`: derives the
 * handler method name for an event name.
 */
module ResolveMethod {
  import opened Wrappers

  /** The prefix put in front of the name when `prefix` is true. */
  const OnPrefix: string := "on_"

  /**
   * An event name as the resolver sees it: its string form, and the
   * `underscore` method when the value responds to one (an inflection
   * supplied from outside, not modelled).
   */
  datatype Name = Name(text: string, underscore: Option<string -> string>)

  /** The name after the optional `underscore` step. */
  function Underscored(name: Name): (r: string)
  {
    match name.underscore
    case Some(f) => f(name.text)
    case None => name.text
  }

  /**
   * `ResolveMethod.call(name, prefix)`: the (underscored) name, behind a
   * leading "on_" exactly when `prefix` is true.
   */
  function Call(name: Name, prefix: bool): (r: string)
    ensures prefix ==> StripOnPrefix(r) == Some(Underscored(name))
    ensures !prefix ==> r == Underscored(name)
  {
    var n := Underscored(name);
    if prefix then OnPrefix + n else n
  }

  /** Removes a leading "on_", the inverse of prefixing. */
  function StripOnPrefix(s: string): (r: Option<string>)
    ensures r.Some? <==> OnPrefix <= s
    ensures r.Some? ==> OnPrefix + r.value == s
  {
    if OnPrefix <= s then Some(s[|OnPrefix|..]) else None
  }

  /** With prefix true the result always starts with "on_", followed by the (underscored) name. */
  lemma PrefixedStartsWithOn(name: Name)
    ensures OnPrefix <= Call(name, true)
    ensures StripOnPrefix(Call(name, true)) == Some(Underscored(name))
  {
  }

  /** A name without `underscore` and without prefix comes back unchanged. */
  lemma PlainNameUnchanged(name: Name)
    requires name.underscore.None?
    ensures Call(name, false) == name.text
  {
  }

  /** `underscore` is applied before prefixing, whichever the prefix flag. */
  lemma UnderscoreBeforePrefix(name: Name, f: string -> string)
    requires name.underscore == Some(f)
    ensures Call(name, false) == f(name.text)
    ensures Call(name, true) == OnPrefix + f(name.text)
  {
  }

  /** Without prefix, the result starts with "on_" only if the (underscored) name already did. */
  lemma UnprefixedStartsWithOnIff(name: Name)
    ensures OnPrefix <= Call(name, false) <==> OnPrefix <= Underscored(name)
  {
  }

  /** The prefixed and unprefixed results differ exactly by the leading "on_". */
  lemma PrefixAddsOnlyOn(name: Name)
    ensures |Call(name, true)| == |Call(name, false)| + 3
    ensures Call(name, true) == OnPrefix + Call(name, false)
    ensures StripOnPrefix(Call(name, true)) == Some(Call(name, false))
  {
  }

  /** Two names get the same prefixed handler exactly when they get the same unprefixed one. */
  lemma PrefixedAgreesWithUnprefixed(a: Name, b: Name)
    ensures Call(a, true) == Call(b, true) <==> Call(a, false) == Call(b, false)
  {
    if Call(a, true) == Call(b, true) {
      PrefixAddsOnlyOn(a);
      PrefixAddsOnlyOn(b);
    }
  }

  /** The concrete names the resolver's unit examples use. */
  lemma MyEventExamples()
    ensures Call(Name("MyEvent", None), false) == "MyEvent"
    ensures !(OnPrefix <= Call(Name("MyEvent", None), false))
    ensures Call(Name("MyEvent", Some(_ => "my_event")), false) == "my_event"
    ensures OnPrefix <= Call(Name("MyEvent", None), true)
  {
    PrefixedStartsWithOn(Name("MyEvent", None));
    assert "MyEvent"[0] != OnPrefix[0];
  }
}
