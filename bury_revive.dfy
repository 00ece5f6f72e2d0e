/**
 The decision step of the stored-message reviver (src/messagereviver.cpp,
 handleMessages, lines 139-148): every settled token is looked up in the
 local history; one already recorded is buried (expunged on the server),
 one not yet recorded is revived (delivered again).
 */
module BuryRevive {
  import opened Settling

  /** The settled tokens the history lookup finds. */
  function Buried(tokens: set<Token>, inHistory: Token -> bool): set<Token>
  {
    set t | t in tokens && inHistory(t)
  }

  /** The settled tokens the history lookup does not find. */
  function Revived(tokens: set<Token>, inHistory: Token -> bool): set<Token>
  {
    set t | t in tokens && !inHistory(t)
  }

  /** No token occurs twice in the list. */
  predicate NoDuplicates(list: seq<Token>)
  {
    forall i, j :: 0 <= i < j < |list| ==> list[i] != list[j]
  }

  /** `list` names each member of `s` exactly once and nothing else. */
  ghost predicate Enumerates(list: seq<Token>, s: set<Token>)
  {
    NoDuplicates(list) && forall t :: t in list <==> t in s
  }

  /** A list that names each member of a set once is as long as the set is large. */
  lemma {:induction false} EnumerationLength(list: seq<Token>, s: set<Token>)
    requires Enumerates(list, s)
    ensures |list| == |s|
    decreases |list|
  {
    if list != [] {
      var rest := list[1..];
      assert forall t :: t in rest ==> t != list[0] by {
        forall t | t in rest ensures t != list[0] {
          var k :| 0 <= k < |rest| && rest[k] == t;
          assert list[k + 1] == t;
        }
      }
      assert forall t :: t in rest <==> t in s - {list[0]} by {
        forall t ensures t in rest <==> t in s - {list[0]} {
          if t in s - {list[0]} {
            assert t in list;
            var k :| 0 <= k < |list| && list[k] == t;
            assert k != 0;
            assert rest[k - 1] == t;
          }
        }
      }
      EnumerationLength(rest, s - {list[0]});
    }
  }

  /** Burial and revival split the settled tokens: each lands in exactly one, by the lookup. */
  lemma {:induction false} PartitionIsExact(tokens: set<Token>, inHistory: Token -> bool)
    ensures Buried(tokens, inHistory) + Revived(tokens, inHistory) == tokens
    ensures Buried(tokens, inHistory) * Revived(tokens, inHistory) == {}
    ensures forall t :: t in tokens ==> (t in Buried(tokens, inHistory) <==> inHistory(t))
    ensures |Buried(tokens, inHistory)| + |Revived(tokens, inHistory)| == |tokens|
  {
  }

  /**
   The foreach loop of lines 139-148: builds the toBury and toRevive lists
   from the settled tokens, in whatever order the set yields them.
   */
  method Partition(tokens: set<Token>, inHistory: Token -> bool) returns (toBury: seq<Token>, toRevive: seq<Token>)
    ensures Enumerates(toBury, Buried(tokens, inHistory))
    ensures Enumerates(toRevive, Revived(tokens, inHistory))
    ensures |toBury| + |toRevive| == |tokens|
  {
    toBury, toRevive := [], [];
    var rest := tokens;
    while rest != {}
      invariant rest <= tokens
      invariant NoDuplicates(toBury) && NoDuplicates(toRevive)
      invariant forall t :: t in toBury <==> t in tokens && t !in rest && inHistory(t)
      invariant forall t :: t in toRevive <==> t in tokens && t !in rest && !inHistory(t)
      decreases |rest|
    {
      var t :| t in rest;
      if inHistory(t) {
        toBury := toBury + [t];
      } else {
        toRevive := toRevive + [t];
      }
      rest := rest - {t};
    }
    EnumerationLength(toBury, Buried(tokens, inHistory));
    EnumerationLength(toRevive, Revived(tokens, inHistory));
    PartitionIsExact(tokens, inHistory);
  }
}
