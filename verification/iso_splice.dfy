/**
  Replacing the clock part of an ISO-8601 timestamp such as
  `2017-11-02T00:00:00-08:00`: characters 0..10 (the date and the `T`) are
  kept, characters 11..18 (the `HH:MM:SS` clock) are replaced, and the rest
  (the UTC offset) is kept. Slicing follows Python: bounds past the end of
  the text are clamped to its length.
 */
module IsoSplice {

  const ClockStart: nat := 11
  const ClockEnd: nat := 19

  /** `s[:n]` in Python, for a non-negative `n`. */
  function Take(s: string, n: nat): string {
    if n <= |s| then s[..n] else s
  }

  /** `s[n:]` in Python, for a non-negative `n`. */
  function Drop(s: string, n: nat): string {
    if n <= |s| then s[n..] else []
  }

  /**
    `iso[:11] + clock + iso[19:]`. For a timestamp of at least 19 characters
    the date prefix and the offset suffix survive and the clock sits at
    position 11; shorter text keeps what it has and gains the clock at its end.
   */
  function Splice(iso: string, clock: string): (r: string)
    ensures |iso| >= ClockEnd ==>
      && |r| == ClockStart + |clock| + |iso| - ClockEnd
      && r[..ClockStart] == iso[..ClockStart]
      && r[ClockStart..ClockStart + |clock|] == clock
      && r[ClockStart + |clock|..] == iso[ClockEnd..]
    ensures |iso| < ClockEnd ==>
      && |r| == (if |iso| < ClockStart then |iso| else ClockStart) + |clock|
      && r[|r| - |clock|..] == clock
      && iso[..|r| - |clock|] == r[..|r| - |clock|]
  {
    Take(iso, ClockStart) + clock + Drop(iso, ClockEnd)
  }

  /** Splicing a timestamp's own clock back in gives the timestamp unchanged. */
  lemma SpliceOwnClock(iso: string)
    requires |iso| >= ClockEnd
    ensures Splice(iso, iso[ClockStart..ClockEnd]) == iso
  {
    assert iso == iso[..ClockStart] + iso[ClockStart..ClockEnd] + iso[ClockEnd..];
  }

  /** A second splice over an eight-character clock replaces the first one. */
  lemma SpliceTwiceKeepsLast(iso: string, first: string, second: string)
    requires |iso| >= ClockEnd && |first| == ClockEnd - ClockStart
    ensures Splice(Splice(iso, first), second) == Splice(iso, second)
  {
    var once := Splice(iso, first);
    assert once[..ClockStart] == iso[..ClockStart];
    assert once[ClockEnd..] == iso[ClockEnd..];
  }

  /** The spliced text's clock is the one given. */
  lemma SpliceThenReadClock(iso: string, clock: string)
    requires |iso| >= ClockEnd && |clock| == ClockEnd - ClockStart
    ensures Splice(iso, clock)[ClockStart..ClockEnd] == clock
  {
  }
}
