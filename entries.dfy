/**
 * Archive entries and the eligibility filter that both the upload controller
 * and the expansion worker apply to them. The archive codec itself is not
 * modelled: an archive is the sequence of its entries in enumeration order.
 */
module Entries {
  import opened Strings

  datatype Entry = Entry(name: string, isDirectory: bool)

  /** Entries that macOS archivers add under this prefix are skipped. */
  const MacMetadataPrefix: string := "__MACOSX/"
  /** AppleDouble resource-fork files start with this marker. */
  const HiddenMarker: string := "._"
  /** The only source document type that is converted. */
  const SourceExtension: string := ".docx"

  /** The entry's base name: the part after its last `/`. */
  function BaseName(name: string): string {
    LastPart(name, '/')
  }

  /** The four-part test both the controller and the worker apply, in that order. */
  predicate Eligible(e: Entry) {
    && !e.isDirectory
    && !StartsWith(e.name, MacMetadataPrefix)
    && !StartsWith(BaseName(e.name), HiddenMarker)
    && EndsWith(e.name, SourceExtension)
  }

  /** `k` is where the last `/`-separated segment of `name` begins. */
  predicate LastSegmentStart(name: string, k: nat) {
    k <= |name| && (k == 0 || name[k - 1] == '/') && '/' !in name[k..]
  }

  /**
   * The filter stated without `split`: an entry is eligible iff it is a file,
   * it is not under `__MACOSX/`, it ends in `.docx`, and the segment after its
   * last `/` does not start with `._`.
   */
  lemma EligibleIff(e: Entry)
    ensures Eligible(e) <==>
      && !e.isDirectory
      && !StartsWith(e.name, MacMetadataPrefix)
      && EndsWith(e.name, SourceExtension)
      && forall k: nat :: LastSegmentStart(e.name, k) ==> !StartsWith(e.name[k..], HiddenMarker)
  {
    var name := e.name;
    var b := BaseName(name);
    LastPartIsLastSegment(name, '/');
    var k0 := |name| - |b|;
    assert name[k0..] == b;
    assert LastSegmentStart(name, k0);
    forall k: nat | LastSegmentStart(name, k) ensures k == k0 {
      if k != k0 {
        assert false;
      }
    }
  }

  /** The eligible entries, in enumeration order. */
  function Eligibles(entries: seq<Entry>): (r: seq<Entry>)
    ensures |r| <= |entries|
    ensures forall i :: 0 <= i < |r| ==> Eligible(r[i])
    decreases |entries|
  {
    if |entries| == 0 then []
    else
      var init := entries[..|entries| - 1];
      var last := entries[|entries| - 1];
      assert entries == init + [last];
      Eligibles(init) + (if Eligible(last) then [last] else [])
  }

  /** Every eligible entry of the archive is kept, and nothing else is. */
  lemma {:induction false} EligiblesMembers(entries: seq<Entry>, e: Entry)
    ensures e in Eligibles(entries) <==> e in entries && Eligible(e)
    decreases |entries|
  {
    if |entries| > 0 {
      var init := entries[..|entries| - 1];
      EligiblesMembers(init, e);
      assert entries == init + [entries[|entries| - 1]];
    }
  }

  /** Filtering distributes over concatenation, which is what makes it an order-preserving filter. */
  lemma {:induction false} EligiblesAppend(a: seq<Entry>, b: seq<Entry>)
    ensures Eligibles(a + b) == Eligibles(a) + Eligibles(b)
    decreases |b|
  {
    if |b| == 0 {
      assert a + b == a;
    } else {
      var init := b[..|b| - 1];
      var last := b[|b| - 1];
      var tail := if Eligible(last) then [last] else [];
      EligiblesAppend(a, init);
      assert (a + b)[..|a + b| - 1] == a + init;
      assert (a + b)[|a + b| - 1] == last;
      calc {
        Eligibles(a + b);
        Eligibles(a + init) + tail;
        Eligibles(a) + Eligibles(init) + tail;
        Eligibles(a) + (Eligibles(init) + tail);
        Eligibles(a) + Eligibles(b);
      }
    }
  }

  /** The eligible entries of a prefix of the archive are a prefix of its eligible entries. */
  lemma EligiblesPrefix(entries: seq<Entry>, i: nat)
    requires i <= |entries|
    ensures |Eligibles(entries[..i])| <= |Eligibles(entries)|
    ensures Eligibles(entries)[..|Eligibles(entries[..i])|] == Eligibles(entries[..i])
  {
    assert entries == entries[..i] + entries[i..];
    EligiblesAppend(entries[..i], entries[i..]);
  }

  /** One more entry adds itself to the eligible entries exactly when it is eligible. */
  lemma EligiblesStep(entries: seq<Entry>, i: nat)
    requires i < |entries|
    ensures Eligibles(entries[..i + 1]) ==
      Eligibles(entries[..i]) + (if Eligible(entries[i]) then [entries[i]] else [])
  {
    assert entries[..i + 1][..i] == entries[..i];
  }
  /** The eligible entries among the first `n`, collected one entry at a time as the scanning loops do. */
  function EligiblesUpTo(entries: seq<Entry>, n: nat): seq<Entry>
    requires n <= |entries|
  {
    if n == 0 then [] else EligiblesUpTo(entries, n - 1) + (if Eligible(entries[n - 1]) then [entries[n - 1]] else [])
  }

  /** Scanning the first `n` entries collects the eligible entries of that prefix. */
  lemma {:induction false} EligiblesUpToPrefix(entries: seq<Entry>, n: nat)
    requires n <= |entries|
    ensures EligiblesUpTo(entries, n) == Eligibles(entries[..n])
  {
    if n > 0 {
      var tail := if Eligible(entries[n - 1]) then [entries[n - 1]] else [];
      EligiblesUpToPrefix(entries, n - 1);
      EligiblesStep(entries, n - 1);
      assert entries[..n][..n - 1] == entries[..n - 1];
      assert EligiblesUpTo(entries, n) == EligiblesUpTo(entries, n - 1) + tail;
    }
  }

  /** Scanning all entries collects exactly the eligible ones. */
  lemma EligiblesUpToAll(entries: seq<Entry>)
    ensures EligiblesUpTo(entries, |entries|) == Eligibles(entries)
  {
    EligiblesUpToPrefix(entries, |entries|);
    assert entries[..|entries|] == entries;
  }
}
