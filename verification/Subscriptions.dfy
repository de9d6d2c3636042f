// Subscription rules and the events they are matched against
// (crates/buzz-acp/src/filter.rs).
module Subscriptions {
  import opened Wrappers

  type ChannelId = nat

  // A channel as text: the spelling the program prints, some other spelling that parses to
  // the same identifier (upper case, without hyphens, in braces), or no identifier at all.
  datatype ChannelText = Canonical(id: ChannelId) | OtherSpelling(id: ChannelId) | NoChannel(text: string)
  {
    function Parse(): Option<ChannelId> {
      if NoChannel? then None else Some(id)
    }
  }

  function Print(channel: ChannelId): ChannelText {
    Canonical(channel)
  }

  datatype ChannelScope = All(text: string) | List(ids: seq<ChannelText>)
  {
    // How the matcher reads a scope: listed texts are compared as texts.
    predicate Matches(channel: ChannelId) {
      match this
      case All(text) => text == "all"
      case List(ids) => Print(channel) in ids
    }

    // How the resolvers read a scope: listed texts are parsed first.
    predicate AppliesTo(channel: ChannelId) {
      match this
      case All(text) => text == "all"
      case List(ids) => exists i :: 0 <= i < |ids| && ids[i].Parse() == Some(channel)
    }
  }

  datatype Rule = Rule(
    name: string,
    channels: ChannelScope,
    kinds: seq<nat>,
    requireMention: bool,
    filter: Option<string>,
    promptTag: Option<string>)

  datatype Event = Event(kind: nat, tags: seq<seq<string>>)
  {
    predicate Mentions(pubkey: string) {
      exists i :: 0 <= i < |tags| && IsMention(tags[i], pubkey)
    }
  }

  predicate IsMention(tag: seq<string>, pubkey: string) {
    |tag| >= 2 && tag[0] == "p" && tag[1] == pubkey
  }

  // Every channel the matcher accepts is one the resolvers subscribe to; the converse fails
  // exactly for lists that name the channel in another spelling only.
  lemma ScopesDiffer(scope: ChannelScope, channel: ChannelId)
    ensures scope.Matches(channel) ==> scope.AppliesTo(channel)
    ensures scope.AppliesTo(channel) && !scope.Matches(channel)
      <==> scope.List? && OtherSpelling(channel) in scope.ids && Canonical(channel) !in scope.ids
  {
    if scope.List? {
      if Canonical(channel) in scope.ids {
        var i :| 0 <= i < |scope.ids| && scope.ids[i] == Canonical(channel);
        assert scope.ids[i].Parse() == Some(channel);
      }
      if OtherSpelling(channel) in scope.ids {
        var i :| 0 <= i < |scope.ids| && scope.ids[i] == OtherSpelling(channel);
        assert scope.ids[i].Parse() == Some(channel);
      }
    }
  }
}
