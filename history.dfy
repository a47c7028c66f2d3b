/** The list of recently analysed hosts: saving a host removes every entry
    equal to it ignoring case, puts it first and keeps the twenty most
    recent. Reading and writing the stored file is outside the model; the
    stored list comes in as a value and the updated list goes out as one. */
module History {

  /** How many hosts the history keeps. */
  const Capacity: nat := 20

  /** The upper-case form an ordinal case-insensitive comparison uses, for
      the Basic Latin and Latin-1 Supplement letters; every other character
      is its own upper case here. */
  function Upper(c: char): char {
    if 'a' <= c <= 'z' then (c as int - 32) as char
    else if 0xE0 <= c as int <= 0xFE && c as int != 0xF7 then (c as int - 32) as char
    else if c as int == 0xFF then 0x178 as char
    else if c as int == 0xB5 then 0x39C as char
    else c
  }

  /** `a.Equals(b, StringComparison.OrdinalIgnoreCase)`: the same length and
      the same characters once both are upper-cased one by one. */
  predicate SameIgnoringCase(a: string, b: string) {
    |a| == |b| && forall i :: 0 <= i < |a| ==> Upper(a[i]) == Upper(b[i])
  }

  /** The list `RemoveAll` leaves: the entries that differ from `host`
      ignoring case, in their order. */
  function Without(history: seq<string>, host: string): (r: seq<string>)
    ensures |r| <= |history|
    decreases |history|
  {
    if history == [] then []
    else
      var entry := history[|history| - 1];
      Without(history[..|history| - 1], host) + (if SameIgnoringCase(entry, host) then [] else [entry])
  }

  /** The history after saving `host`. */
  function Saved(history: seq<string>, host: string): seq<string> {
    var updated := [host] + Without(history, host);
    if |updated| > Capacity then updated[..Capacity] else updated
  }

  /** No two entries are equal ignoring case. */
  predicate NoCaseDuplicates(history: seq<string>) {
    forall i, j :: 0 <= i < j < |history| ==> !SameIgnoringCase(history[i], history[j])
  }

  /** `Save` on the list it loaded: remove the host's case-insensitive
      duplicates in place, insert it at the front, keep the first twenty. */
  method Save(stored: seq<string>, host: string) returns (history: seq<string>)
    ensures history == Saved(stored, host)
  {
    history := stored;
    // RemoveAll: `i` entries of the stored list examined, the survivors
    // kept in front of those still to examine
    var kept := 0;
    var i := 0;
    while i < |stored|
      invariant 0 <= kept <= i <= |stored|
      invariant |history| == kept + (|stored| - i)
      invariant history[..kept] == Without(stored[..i], host)
      invariant history[kept..] == stored[i..]
      decreases |stored| - i
    {
      assert stored[..i + 1] == stored[..i] + [stored[i]];
      assert history[kept] == stored[i] && history[kept + 1..] == stored[i + 1..];
      if SameIgnoringCase(history[kept], host) {
        ghost var survivors := history[..kept];
        history := history[..kept] + history[kept + 1..];
        assert history[..kept] == survivors && history[kept..] == stored[i + 1..];
      } else {
        assert history[..kept + 1] == history[..kept] + [stored[i]];
        kept := kept + 1;
      }
      i := i + 1;
    }
    assert stored[..i] == stored;
    assert history == history[..kept];
    history := [host] + history;
    if |history| > Capacity {
      history := history[..Capacity];
    }
  }

  /** Case-insensitive equality is an equivalence. */
  lemma SameIgnoringCaseEquivalence(a: string, b: string, c: string)
    ensures SameIgnoringCase(a, a)
    ensures SameIgnoringCase(a, b) ==> SameIgnoringCase(b, a)
    ensures SameIgnoringCase(a, b) && SameIgnoringCase(b, c) ==> SameIgnoringCase(a, c)
  {
  }

  /** An entry survives `RemoveAll` exactly when it was in the list and
      differs from the host ignoring case. */
  lemma {:induction false} WithoutMembers(history: seq<string>, host: string, x: string)
    ensures x in Without(history, host) <==> x in history && !SameIgnoringCase(x, host)
    decreases |history|
  {
    if history != [] {
      var init := history[..|history| - 1];
      WithoutMembers(init, host, x);
      assert history == init + [history[|history| - 1]];
    }
  }

  /** `RemoveAll` works entry by entry: on a concatenation it is the
      concatenation of the two filtered parts, so it keeps the order. */
  lemma {:induction false} WithoutAppend(a: seq<string>, b: seq<string>, host: string)
    ensures Without(a + b, host) == Without(a, host) + Without(b, host)
    decreases |b|
  {
    if b == [] {
      assert a + b == a;
    } else {
      var init := b[..|b| - 1];
      WithoutAppend(a, init, host);
      assert (a + b)[..|a + b| - 1] == a + init;
    }
  }

  /** A list without the host's duplicates is left as it is. */
  lemma {:induction false} WithoutNothingToRemove(history: seq<string>, host: string)
    requires forall i :: 0 <= i < |history| ==> !SameIgnoringCase(history[i], host)
    ensures Without(history, host) == history
    decreases |history|
  {
    if history != [] {
      WithoutNothingToRemove(history[..|history| - 1], host);
    }
  }

  /** `RemoveAll` keeps a list free of case-insensitive duplicates. */
  lemma {:induction false} WithoutKeepsNoDuplicates(history: seq<string>, host: string)
    requires NoCaseDuplicates(history)
    ensures NoCaseDuplicates(Without(history, host))
    decreases |history|
  {
    if history != [] {
      var init := history[..|history| - 1];
      var entry := history[|history| - 1];
      WithoutKeepsNoDuplicates(init, host);
      var w := Without(init, host);
      forall i | 0 <= i < |w| ensures !SameIgnoringCase(w[i], entry) {
        WithoutMembers(init, host, w[i]);
        var j :| 0 <= j < |init| && init[j] == w[i];
        assert history[j] == w[i];
      }
    }
  }

  /** After saving, the host is the first entry, the list is not empty and
      holds at most twenty entries, and no other entry equals the host
      ignoring case. */
  lemma SavedShape(history: seq<string>, host: string)
    ensures var r := Saved(history, host);
            && 1 <= |r| <= Capacity && r[0] == host
            && forall i :: 1 <= i < |r| ==> !SameIgnoringCase(r[i], host)
  {
    var r := Saved(history, host);
    var w := Without(history, host);
    forall i | 1 <= i < |r| ensures !SameIgnoringCase(r[i], host) {
      assert r[i] == w[i - 1];
      WithoutMembers(history, host, r[i]);
    }
  }

  /** After saving, the entries after the host are the older entries that
      differ from it, in their order, as many as fit. */
  lemma SavedKeepsOrder(history: seq<string>, host: string)
    ensures var r := Saved(history, host);
            var w := Without(history, host);
            && |r| == (if |w| < Capacity then |w| + 1 else Capacity)
            && r[1..] == w[..|r| - 1]
  {
  }

  /** Saving the same host twice is the same as saving it once. */
  lemma SaveIdempotent(history: seq<string>, host: string)
    ensures Saved(Saved(history, host), host) == Saved(history, host)
  {
    var r := Saved(history, host);
    var rest := r[1..];
    SavedShape(history, host);
    assert r == [host] + rest;
    forall i | 0 <= i < |rest| ensures !SameIgnoringCase(rest[i], host) {
      assert rest[i] == r[i + 1];
    }
    WithoutNothingToRemove(rest, host);
    WithoutAppend([host], rest, host);
    assert Without([host], host) == [] by {
      SameIgnoringCaseEquivalence(host, host, host);
      assert [host][..0] == [];
    }
    assert Without(r, host) == rest;
  }

  /** Saving keeps a history free of case-insensitive duplicates. */
  lemma SaveKeepsNoDuplicates(history: seq<string>, host: string)
    requires NoCaseDuplicates(history)
    ensures NoCaseDuplicates(Saved(history, host))
  {
    var r := Saved(history, host);
    var w := Without(history, host);
    WithoutKeepsNoDuplicates(history, host);
    SavedShape(history, host);
    forall i, j | 0 <= i < j < |r| ensures !SameIgnoringCase(r[i], r[j]) {
      if i == 0 {
        SameIgnoringCaseEquivalence(r[j], host, host);
      } else {
        assert r[i] == w[i - 1] && r[j] == w[j - 1];
      }
    }
  }
}
