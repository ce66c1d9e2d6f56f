/**
  The fixed lookup table of the state-name converter: the fifty United States
  and the District of Columbia, each by its exact English name, mapped to its
  two-letter postal code.
 */
module StateTable {

  /**
    The entries of the table literal in the order they are written, one
    bracketed group per line of the literal. The groups are nested in a
    balanced way only to keep proofs about positions in the list cheap.
   */
  const Entries: seq<(string, string)> :=
    (
      (
        ( [("Alabama", "AL"), ("Alaska", "AK"), ("Arizona", "AZ"), ("Arkansas", "AR"), ("California", "CA")]
        + [("Colorado", "CO"), ("Connecticut", "CT"), ("Delaware", "DE"), ("Florida", "FL"), ("Georgia", "GA")])
      + [("Hawaii", "HI"), ("Idaho", "ID"), ("Illinois", "IL"), ("Indiana", "IN"), ("Iowa", "IA")])
    + (
        ( [("Kansas", "KS"), ("Kentucky", "KY"), ("Louisiana", "LA"), ("Maine", "ME"), ("Maryland", "MD")]
        + [("Massachusetts", "MA"), ("Michigan", "MI"), ("Minnesota", "MN"), ("Mississippi", "MS")])
      + [("Missouri", "MO"), ("Montana", "MT"), ("Nebraska", "NE"), ("Nevada", "NV"), ("New Hampshire", "NH")])
    )
    + (
      (
        ( [("New Jersey", "NJ"), ("New Mexico", "NM"), ("New York", "NY"), ("North Carolina", "NC")]
        + [("North Dakota", "ND"), ("Ohio", "OH"), ("Oklahoma", "OK"), ("Oregon", "OR"), ("Pennsylvania", "PA")])
      + [("Rhode Island", "RI"), ("South Carolina", "SC"), ("South Dakota", "SD"), ("Tennessee", "TN")])
    + ( [("Texas", "TX"), ("Utah", "UT"), ("Vermont", "VT"), ("Virginia", "VA"), ("Washington", "WA")]
      + [("West Virginia", "WV"), ("Wisconsin", "WI"), ("Wyoming", "WY"), ("District of Columbia", "DC")])
    )

  /**
    The dictionary a literal with these entries denotes: entries are added
    left to right, and a later entry with the same key replaces an earlier one.
   */
  function TableOf(entries: seq<(string, string)>): map<string, string>
  {
    if entries == [] then map[]
    else
      var n := |entries| - 1;
      var init := entries[..n];
      TableOf(init)[entries[n].0 := entries[n].1]
  }

  /** The name-to-code table. */
  const StateAbbreviations: map<string, string> := TableOf(Entries)

  /** The keys of `entries`, in order. */
  function Names(entries: seq<(string, string)>): seq<string>
  {
    seq(|entries|, i requires 0 <= i < |entries| => entries[i].0)
  }

  /** The values of `entries`, in order. */
  function Codes(entries: seq<(string, string)>): seq<string>
  {
    seq(|entries|, i requires 0 <= i < |entries| => entries[i].1)
  }

  /** A postal code: exactly two upper-case Latin letters. */
  predicate IsPostalCode(s: string) {
    |s| == 2 && forall i :: 0 <= i < |s| ==> 'A' <= s[i] <= 'Z'
  }

  /** No string occurs twice in `s`. */
  predicate Distinct(s: seq<string>) {
    forall i, j :: 0 <= i < j < |s| ==> s[i] != s[j]
  }

  // ----- Dictionaries built from entries -----

  /** The keys of the dictionary are exactly the listed names. */
  lemma {:induction false} TableOfKeys(entries: seq<(string, string)>)
    ensures forall name :: name in TableOf(entries) <==> name in Names(entries)
  {
    if entries != [] {
      var init := entries[..|entries| - 1];
      TableOfKeys(init);
      assert Names(entries) == Names(init) + [entries[|entries| - 1].0];
    }
  }

  /** With distinct names, every entry is found under its name with its own code. */
  lemma {:induction false} TableOfAt(entries: seq<(string, string)>, i: nat)
    requires Distinct(Names(entries)) && i < |entries|
    ensures entries[i].0 in TableOf(entries) && TableOf(entries)[entries[i].0] == entries[i].1
  {
    var n := |entries| - 1;
    if i < n {
      var init := entries[..n];
      assert Names(init) == Names(entries)[..n];
      TableOfAt(init, i);
      assert Names(entries)[i] != Names(entries)[n];
    }
  }

  /** With distinct names, the dictionary has one key per entry. */
  lemma {:induction false} TableOfSize(entries: seq<(string, string)>)
    requires Distinct(Names(entries))
    ensures |TableOf(entries)| == |entries|
  {
    if entries != [] {
      var n := |entries| - 1;
      var init := entries[..n];
      assert Names(init) == Names(entries)[..n];
      TableOfSize(init);
      TableOfKeys(init);
      assert entries[n].0 !in Names(init) by {
        forall j | 0 <= j < n ensures Names(init)[j] != entries[n].0 {
          assert Names(entries)[j] != Names(entries)[n];
        }
      }
    }
  }

  // ----- Certifying that the names and the codes are distinct -----
  //
  // Comparing all 1275 pairs of entries is too costly for the verifier, so
  // each list is shown to be distinct by putting it in strictly ascending
  // order: 50 comparisons of neighbours and transitivity do the rest.

  /** `a` sorts strictly before `b`, comparing character by character from position `i` on. */
  predicate Before(a: string, b: string, i: nat)
    decreases |a| - i
  {
    if i >= |a| then i < |b|
    else if i >= |b| then false
    else a[i] < b[i] || (a[i] == b[i] && Before(a, b, i + 1))
  }

  lemma {:induction false} BeforeIrreflexive(a: string, i: nat)
    ensures !Before(a, a, i)
    decreases |a| - i
  {
    if i < |a| {
      BeforeIrreflexive(a, i + 1);
    }
  }

  lemma {:induction false} BeforeTransitive(a: string, b: string, c: string, i: nat)
    requires Before(a, b, i) && Before(b, c, i)
    ensures Before(a, c, i)
    decreases |a| - i
  {
    if i < |a| && a[i] == b[i] && b[i] == c[i] {
      BeforeTransitive(a, b, c, i + 1);
    }
  }

  /**
    `order` lists the positions of `s` so that the strings at them ascend
    strictly, and `rank` gives each position's place in `order`.
   */
  predicate SortedBy(s: seq<string>, order: seq<nat>, rank: seq<nat>)
  {
    && |order| == |s| && |rank| == |s|
    && (forall k :: 0 <= k < |order| ==> order[k] < |s|)
    && (forall k :: 0 <= k < |order| - 1 ==> Before(s[order[k]], s[order[k + 1]], 0))
    && (forall i :: 0 <= i < |s| ==> rank[i] < |order| && order[rank[i]] == i)
  }

  lemma {:induction false} SortedByAscends(s: seq<string>, order: seq<nat>, rank: seq<nat>, k: nat, l: nat)
    requires SortedBy(s, order, rank) && k < l < |order|
    ensures Before(s[order[k]], s[order[l]], 0)
    decreases l - k
  {
    if k + 1 < l {
      SortedByAscends(s, order, rank, k + 1, l);
      BeforeTransitive(s[order[k]], s[order[k + 1]], s[order[l]], 0);
    }
  }

  lemma SortedByDistinct(s: seq<string>, order: seq<nat>, rank: seq<nat>)
    requires SortedBy(s, order, rank)
    ensures Distinct(s)
  {
    forall i, j | 0 <= i < j < |s|
      ensures s[i] != s[j]
    {
      if rank[i] < rank[j] {
        SortedByAscends(s, order, rank, rank[i], rank[j]);
      } else {
        SortedByAscends(s, order, rank, rank[j], rank[i]);
      }
      BeforeIrreflexive(s[i], 0);
    }
  }

  /**
    The positions of the entries in alphabetical order of name: the literal is
    already alphabetical except that the District of Columbia, written last,
    belongs between Delaware and Florida. `NameRank` inverts `NameOrder`.
   */
  const NameOrder: seq<nat> := seq(8, i => i) + [50] + seq(42, i => i + 8)
  const NameRank: seq<nat> := seq(51, i => if i < 8 then i else if i == 50 then 8 else i + 1)

  /** The positions of the entries in alphabetical order of code (AK, AL, AR, AZ, CA, ...), and its inverse. */
  const CodeOrder: seq<nat> :=
    [1, 0, 3, 2, 4, 5, 6, 50, 7, 8]
    + [9, 10, 14, 11, 12, 13, 15, 16, 17, 20]
    + [19, 18, 21, 22, 24, 23, 25, 32, 33, 26]
    + [28, 29, 30, 27, 31, 34, 35, 36, 37, 38]
    + [39, 40, 41, 42, 43, 45, 44, 46, 48, 47]
    + [49]
  const CodeRank: seq<nat> :=
    [1, 0, 3, 2, 4, 5, 6, 8, 9, 10]
    + [11, 13, 14, 15, 12, 16, 17, 18, 21, 20]
    + [19, 22, 23, 25, 24, 26, 29, 33, 30, 31]
    + [32, 34, 27, 28, 35, 36, 37, 38, 39, 40]
    + [41, 42, 43, 44, 46, 45, 47, 49, 48, 50]
    + [7]

  lemma NamesAscend0()
    ensures forall k :: 0 <= k < 10 ==> Before(Entries[NameOrder[k]].0, Entries[NameOrder[k + 1]].0, 0)
  {
  }

  lemma NamesAscend10()
    ensures forall k :: 10 <= k < 20 ==> Before(Entries[NameOrder[k]].0, Entries[NameOrder[k + 1]].0, 0)
  {
  }

  lemma NamesAscend20()
    ensures forall k :: 20 <= k < 30 ==> Before(Entries[NameOrder[k]].0, Entries[NameOrder[k + 1]].0, 0)
  {
  }

  lemma NamesAscend30()
    ensures forall k :: 30 <= k < 40 ==> Before(Entries[NameOrder[k]].0, Entries[NameOrder[k + 1]].0, 0)
  {
  }

  lemma NamesAscend40()
    ensures forall k :: 40 <= k < 50 ==> Before(Entries[NameOrder[k]].0, Entries[NameOrder[k + 1]].0, 0)
  {
  }

  lemma CodesAscend0()
    ensures forall k :: 0 <= k < 10 ==> Before(Entries[CodeOrder[k]].1, Entries[CodeOrder[k + 1]].1, 0)
  {
  }

  lemma CodesAscend10()
    ensures forall k :: 10 <= k < 20 ==> Before(Entries[CodeOrder[k]].1, Entries[CodeOrder[k + 1]].1, 0)
  {
  }

  lemma CodesAscend20()
    ensures forall k :: 20 <= k < 30 ==> Before(Entries[CodeOrder[k]].1, Entries[CodeOrder[k + 1]].1, 0)
  {
  }

  lemma CodesAscend30()
    ensures forall k :: 30 <= k < 40 ==> Before(Entries[CodeOrder[k]].1, Entries[CodeOrder[k + 1]].1, 0)
  {
  }

  lemma CodesAscend40()
    ensures forall k :: 40 <= k < 50 ==> Before(Entries[CodeOrder[k]].1, Entries[CodeOrder[k + 1]].1, 0)
  {
  }

  lemma NameRankInverts()
    ensures forall i :: 0 <= i < 51 ==> NameRank[i] < 51 && NameOrder[NameRank[i]] == i
  {
  }

  lemma CodeRankInverts0()
    ensures forall i :: 0 <= i < 17 ==> CodeRank[i] < 51 && CodeOrder[CodeRank[i]] == i
  {
  }

  lemma CodeRankInverts17()
    ensures forall i :: 17 <= i < 34 ==> CodeRank[i] < 51 && CodeOrder[CodeRank[i]] == i
  {
  }

  lemma CodeRankInverts34()
    ensures forall i :: 34 <= i < 51 ==> CodeRank[i] < 51 && CodeOrder[CodeRank[i]] == i
  {
  }

  lemma OrdersInRange()
    ensures |NameOrder| == |NameRank| == |CodeOrder| == |CodeRank| == |Entries| == 51
    ensures forall k :: 0 <= k < 51 ==> NameOrder[k] < 51 && CodeOrder[k] < 51
  {
  }

  lemma NamesDistinct()
    ensures Distinct(Names(Entries))
  {
    NamesAscend0(); NamesAscend10(); NamesAscend20(); NamesAscend30(); NamesAscend40();
    NameRankInverts();
    OrdersInRange();
    SortedByDistinct(Names(Entries), NameOrder, NameRank);
  }

  lemma CodesDistinct()
    ensures Distinct(Codes(Entries))
  {
    CodesAscend0(); CodesAscend10(); CodesAscend20(); CodesAscend30(); CodesAscend40();
    CodeRankInverts0(); CodeRankInverts17(); CodeRankInverts34();
    OrdersInRange();
    SortedByDistinct(Codes(Entries), CodeOrder, CodeRank);
  }

  lemma NamesAreLongAt()
    ensures forall i :: 0 <= i < |Entries| ==> |Entries[i].0| >= 4
  {
  }

  lemma CodesArePostalCodesAt()
    ensures forall i :: 0 <= i < |Entries| ==> IsPostalCode(Entries[i].1)
  {
  }

  // ----- The table -----

  /** The table holds 51 entries: 50 states and the District of Columbia. */
  lemma TableSize()
    ensures |StateAbbreviations| == 51
  {
    NamesDistinct();
    TableOfSize(Entries);
  }

  /** Each entry of the literal is found under its name. */
  lemma TableLookup(i: nat)
    requires i < |Entries|
    ensures Entries[i].0 in StateAbbreviations
    ensures StateAbbreviations[Entries[i].0] == Entries[i].1
  {
    NamesDistinct();
    TableOfAt(Entries, i);
  }

  /** A string is a key of the table exactly when it is the name of one of the entries. */
  lemma TableKeys()
    ensures forall name :: name in StateAbbreviations <==> name in Names(Entries)
  {
    TableOfKeys(Entries);
  }

  /** The position in the literal of a name the table holds. */
  lemma EntryOf(name: string) returns (i: nat)
    requires name in StateAbbreviations
    ensures i < |Entries| && Entries[i].0 == name
    ensures StateAbbreviations[name] == Entries[i].1
  {
    TableKeys();
    i :| 0 <= i < |Entries| && Names(Entries)[i] == name;
    TableLookup(i);
  }

  /** Every value of the table is a two-letter upper-case code. */
  lemma CodesArePostalCodes()
    ensures forall name :: name in StateAbbreviations ==> IsPostalCode(StateAbbreviations[name])
  {
    forall name | name in StateAbbreviations
      ensures IsPostalCode(StateAbbreviations[name])
    {
      var i := EntryOf(name);
      CodesArePostalCodesAt();
    }
  }

  /** Every key of the table is at least four characters long. */
  lemma NamesAreLong()
    ensures forall name :: name in StateAbbreviations ==> |name| >= 4
  {
    forall name | name in StateAbbreviations
      ensures |name| >= 4
    {
      var i := EntryOf(name);
      NamesAreLongAt();
    }
  }

  /** No code is itself a name the table knows. */
  lemma NoCodeIsName()
    ensures forall name :: name in StateAbbreviations ==> StateAbbreviations[name] !in StateAbbreviations
  {
    CodesArePostalCodes();
    NamesAreLong();
  }

  /** Distinct names have distinct codes. */
  lemma TableInjective()
    ensures forall a, b :: a in StateAbbreviations && b in StateAbbreviations && a != b
                           ==> StateAbbreviations[a] != StateAbbreviations[b]
  {
    forall a, b | a in StateAbbreviations && b in StateAbbreviations && a != b
      ensures StateAbbreviations[a] != StateAbbreviations[b]
    {
      var i := EntryOf(a);
      var j := EntryOf(b);
      CodesDistinct();
      assert Codes(Entries)[i] != Codes(Entries)[j] by {
        if i < j { } else { assert i != j; }
      }
    }
  }
}
