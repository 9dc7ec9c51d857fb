# wisper_next publisher and handler-name resolver, in Dafny

This project models two pieces of the `wisper_next` Ruby library, an
in-process publish/subscribe mixin:

- **The publisher's listener registry and broadcast** (`WisperNext::Publisher::Methods`),
  in `publisher.dfy`, module `PublisherCore`. A `Publisher` object holds
  `@subscribers`, which stays unset until the private `subscribers` reader first
  creates an empty array. `subscribe` rejects a listener that is already registered
  (`ListenerAlreadyRegisteredError`). It then rejects a listener that does not
  respond to `on_event` (`NoEventHandlerError`). Otherwise it appends the listener.
  `unsubscribe` rejects an unregistered listener (`ListenerNotRegisteredError`) and
  otherwise deletes it. `unsubscribe_all` clears the registry. `on(name, &block)`
  raises `ArgumentError` without a block, and otherwise subscribes a new
  `CallableAdapter`. `broadcast(name, payload)` calls `on_event(name, payload)` on
  each listener of a copy of the registry, in registration order. On success,
  `subscribe`, `unsubscribe`, `unsubscribe_all`, `on` and `broadcast` return the
  publisher itself; `subscribed?` returns a boolean.
  - Listeners are objects (`class Listener`) compared by identity, as Ruby's default `==` does.
  - The `respond_to?(:on_event)` probe is the field `respondsToOnEvent`.
  - An error is a `Failure` of `Result`. A successful call returns `Success(this)`.
  - `broadcast` returns the calls it made as a sequence of `Delivery` records.
  - Each called listener may react by calling a registry method on the publisher
    (`Reaction`). The model shows that the copy still decides who is called.
  - `Valid()` is the registry invariant: no listener appears twice, and every listener responds to `on_event`. Every operation keeps it, so every call `broadcast` makes goes to a listener that has `on_event`.
  - `RegistryExamples` checks the `subscribe` and `unsubscribe` unit examples against these contracts, plus two calls of `unsubscribe_all`.
  - `BroadcastExamples` is a two-listener scenario. It includes the unit example's check that each listener receives `(name, payload)` and that `broadcast` returns self.
- **The handler-name resolver** (`WisperNext::Subscriber::ResolveMethod.call`),
  in `resolve_method.dfy`, module `ResolveMethod`. A `Name` carries its string form and,
  when the value responds to `underscore`, that transform. `Call(name, prefix)`
  applies the transform if there is one, then puts `"on_"` in front when `prefix` is true.

`wrappers.dfy` holds the `Option` and `Result` datatypes.

Two details the model takes from the code:
- Membership uses `Array#include?` and `Array#delete`, which compare with `==`, not a separate identity test.
  For plain objects `==` is identity, and that is what the model uses.
- `Array#delete` removes every equal element. The model's `Delete` does the same.
  Because of the no-duplicates invariant, this removes exactly one entry.

## Model

| member | source | states |
|---|---|---|
| PublisherCore.Publisher.constructor | lib/wisper_next/publisher.rb:159 | a new publisher has `@subscribers` unset and so no listeners, and trivially no duplicates |
| PublisherCore.Publisher.FetchSubscribers | lib/wisper_next/publisher.rb:158-160 | `@subscribers ||= []`: creates the empty registry on first use and returns the registry without changing its contents |
| PublisherCore.Publisher.IsSubscribed | lib/wisper_next/publisher.rb:74-76 | `subscribed?` is true exactly when the listener is in the registry; the registry's contents are unchanged |
| PublisherCore.Publisher.Subscribe | lib/wisper_next/publisher.rb:86-91 | the duplicate check comes first (`ListenerAlreadyRegisteredError`), then the `on_event` check (`NoEventHandlerError`); on either error the registry is unchanged; otherwise the listener is appended at the end, is then subscribed, self is returned; no duplicate arises, and every registered listener still has `on_event` |
| PublisherCore.Publisher.Unsubscribe | lib/wisper_next/publisher.rb:101-105 | an absent listener gives `ListenerNotRegisteredError` with no change; otherwise the registry becomes `Delete(old, l)` and self is returned; afterwards the listener is never subscribed |
| PublisherCore.Publisher.UnsubscribeAll | lib/wisper_next/publisher.rb:113-116 | always succeeds, returns self and leaves the registry empty, so a second call leaves the same state (idempotent) |
| PublisherCore.Publisher.On | lib/wisper_next/publisher.rb:126-130 | without a block: `ArgumentError`, and `@subscribers` is not even created; with one: a fresh adapter for (name, block) is appended after the earlier listeners and self is returned (the subscribe inside cannot fail) |
| PublisherCore.Publisher.Broadcast | lib/wisper_next/publisher.rb:144-150 | the calls made are exactly `Deliveries` of the registry as it was when broadcast started, whatever the listeners do to the registry meanwhile; every listener called has `on_event`; the final registry is the listeners' reactions applied in call order; returns self |
| PublisherCore.Listener.CallableAdapter | lib/wisper_next/publisher.rb:128 | a new adapter always responds to `on_event` and records the event name and block it wraps |
| PublisherCore.AppendFreshKeepsNoDuplicates | lib/wisper_next/publisher.rb:87-89 | appending a listener not yet present (the state `subscribe` pushes in) keeps the registry free of duplicates |
| PublisherCore.Delete | lib/wisper_next/publisher.rb:103 | `Array#delete`: the result holds exactly the elements different from the one deleted, is no longer than the input, equals the input when the element is absent, and keeps a duplicate-free registry duplicate-free |
| PublisherCore.DeleteAt | lib/wisper_next/publisher.rb:103 | on a duplicate-free registry, deleting the listener at position i removes exactly that position and keeps all other listeners in their relative order |
| PublisherCore.DeleteUndoesAppend | lib/wisper_next/publisher.rb:86-105 | unsubscribing a listener that `subscribe` just appended gives back exactly the registry before the subscribe |
| PublisherCore.DistinctOccursOnce | lib/wisper_next/publisher.rb:87-89 | in a registry without duplicates each listener occurs exactly once or not at all |
| PublisherCore.Deliveries | lib/wisper_next/publisher.rb:145-147 | broadcast makes one call per listener of the copy, the k-th to the k-th registered listener, each with the broadcast's own name and payload |
| PublisherCore.BroadcastReachesEachOnce | lib/wisper_next/publisher.rb:145-147 | on a duplicate-free registry, each listener present when broadcast starts is called exactly once, and no other object is called |
| PublisherCore.ApplyReaction | lib/wisper_next/publisher.rb:86-116 | the registry after a listener calls `subscribe`, `unsubscribe` or `unsubscribe_all` from inside `on_event` is again free of duplicates, and every listener in it still has `on_event` |
| PublisherCore.AfterReactions | lib/wisper_next/publisher.rb:145-147 | the registry after all called listeners have reacted in order is still free of duplicates, and every listener in it still has `on_event` |
| PublisherCore.LeaverGone | lib/wisper_next/publisher.rb:144-150 | a listener that unsubscribes itself when called, and that no called listener subscribes again, is absent from the registry after the broadcast, so no later broadcast reaches it |
| PublisherCore.SelfUnsubscribeExample | lib/wisper_next/publisher.rb:144-150 | with listeners a then b, where a unsubscribes itself when called: both get the call, a first, and afterwards only b is registered, so the next broadcast calls only b |
| ResolveMethod.Call | lib/wisper_next/subscriber/resolve_method.rb:4-12 | with prefix true, removing a leading `"on_"` from the result gives the (underscored) name; with prefix false the result is the (underscored) name |
| ResolveMethod.StripOnPrefix | lib/wisper_next/subscriber/resolve_method.rb:7-8 | removing a leading `"on_"` succeeds exactly on strings that start with it, and putting it back gives the string again |
| ResolveMethod.PrefixedStartsWithOn | lib/wisper_next/subscriber/resolve_method.rb:7-8 | with prefix true the result starts with `"on_"`, and the rest is the (underscored) name |
| ResolveMethod.PlainNameUnchanged | lib/wisper_next/subscriber/resolve_method.rb:5-10 | a name without `underscore`, without prefix, comes back unchanged |
| ResolveMethod.UnderscoreBeforePrefix | lib/wisper_next/subscriber/resolve_method.rb:5-11 | when the name has `underscore`, it is applied before prefixing: without prefix the result is exactly the underscored name, with prefix it is `"on_"` and the underscored name |
| ResolveMethod.UnprefixedStartsWithOnIff | lib/wisper_next/subscriber/resolve_method.rb:9-10 | without prefix the result starts with `"on_"` exactly when the (underscored) name already does |
| ResolveMethod.PrefixAddsOnlyOn | lib/wisper_next/subscriber/resolve_method.rb:7-11 | the prefixed result is 3 characters longer than the unprefixed one and is `"on_"` followed by it; stripping `"on_"` gives the unprefixed result back |
| ResolveMethod.PrefixedAgreesWithUnprefixed | lib/wisper_next/subscriber/resolve_method.rb:7-11 | two names get the same prefixed handler name exactly when they get the same unprefixed one |
| PublisherCore.RegistryExamples | spec/unit/publisher_spec.rb:12-53 | checks the `subscribe`/`unsubscribe` unit examples against the method contracts: a first subscribe succeeds and returns self, a second gives `ListenerAlreadyRegisteredError`, a listener without `on_event` gives `NoEventHandlerError`, unsubscribe removes and returns self, unsubscribing an absent listener gives `ListenerNotRegisteredError`; it then calls `unsubscribe_all` twice (not a unit example), which returns self and leaves the registry empty |
| PublisherCore.BroadcastExamples | spec/unit/publisher_spec.rb:73-88 | a two-listener scenario that includes the unit examples' checks: each registered listener is called with the broadcast's name and payload, in registration order, and `broadcast` returns self; the first listener leaves during its call and is not reached by the next broadcast |
| ResolveMethod.MyEventExamples | spec/unit/subscriber/resolve_method_spec.rb:5-34 | the unit examples: `"MyEvent"` stays `"MyEvent"` without prefix and does not start with `"on_"`; an underscoreable `"MyEvent"` gives `"my_event"`; with prefix the result starts with `"on_"` |

## Left out

- The `Publisher < Module` `included` hook and the `require_relative` of the adapter file are Ruby loading and mixin plumbing. The class `Publisher` stands for the object that includes the module.
- `CallableAdapter` itself (`publisher/callable_adapter.rb`) is not part of this model. An adapter is a new `Listener` that responds to `on_event` and records its name and block. What its `on_event` does with the block is not modelled. Neither is an `==` that would make it equal to its block.
- Listeners that override `==` are not modelled. Membership is object identity.
- The exception messages built with `inspect` are not modelled. Each error is a `PublisherError` variant that carries the offending listener.
- `respond_to?` and `public_send` reflection are replaced by the `respondsToOnEvent` field and the `Delivery` record of each call.
- Exceptions raised inside a listener's `on_event` are not modelled. In Ruby they propagate and stop the rest of the broadcast.
- A listener reacting during a broadcast makes at most one registry call per delivery. Any error from that call is taken as rescued by the listener. `on` is not among the reactions.
- The registry array's identity is not modelled, and neither is in-place mutation by `push`, `delete` and `clear`. The registry is a sequence value that the methods reassign. The `dup` copy is that value taken before the loop. Nothing outside the publisher sees the array, so this changes no outcome.
- `broadcast`'s default payload (`nil`) and its private visibility are not modelled. The payload is any value of a type parameter.
- The `underscore` inflection is an external library method. It is an opaque function supplied with the name.
- `ResolveMethod.Call` returns the name's string form. In Ruby a name without `underscore` and without prefix is returned as the same object, for example a Symbol stays a Symbol.
