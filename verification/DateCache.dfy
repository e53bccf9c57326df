/** The formatted date shared by all threads: two buffers, and the number of the one in use. */
module DateCache {

  const DATE_LEN: nat := 29

  /** A date as HTTP writes it; how it is written does not matter here. */
  type Date = s: string | |s| == DATE_LEN witness seq(DATE_LEN, _ => ' ')

  /** The cache as a value; of each buffer the 29 characters of a date. */
  datatype Cache = Cache(bufs: seq<string>, active: nat, last: int)

  predicate Shaped(c: Cache) {
    |c.bufs| == 2 && |c.bufs[0]| == |c.bufs[1]| == DATE_LEN && c.active < 2
  }

  function Blank(): (c: Cache)
    ensures Shaped(c)
  {
    var zeros := seq(DATE_LEN, _ => '\0');
    Cache([zeros, zeros], 0, 0)
  }

  function Shown(c: Cache): string
    requires Shaped(c)
  {
    c.bufs[c.active]
  }

  /** A new second makes its date the one shown and keeps the one shown before in the other buffer. */
  function Updated(c: Cache, epoch: int, date: Date): (d: Cache)
    requires Shaped(c)
    ensures Shaped(d)
    ensures epoch != c.last ==> Shown(d) == date && d.bufs[c.active] == Shown(c) && d.active != c.active
  {
    if epoch == c.last then c else Cache(c.bufs[1 - c.active := date], 1 - c.active, epoch)
  }

  /** Within one second nothing changes. */
  lemma SameSecond(c: Cache, date: Date)
    requires Shaped(c)
    ensures Updated(c, c.last, date) == c
  {}

  /** A new second is remembered. */
  lemma NewSecond(c: Cache, epoch: int, date: Date)
    requires Shaped(c)
    ensures Updated(c, epoch, date).last == epoch
    ensures epoch != c.last ==> Updated(Updated(c, epoch, date), epoch, date) == Updated(c, epoch, date)
  {}

  class DateCache {
    const bufs: array2<char>
    var active: nat
    var lastEpoch: int

    ghost predicate Valid()
      reads this
    {
      bufs.Length0 == 2 && bufs.Length1 == 32 && active < 2
    }

    ghost function Row(k: nat): (row: string)
      requires bufs.Length0 == 2 && bufs.Length1 == 32 && k < 2
      reads bufs
      ensures |row| == DATE_LEN && forall i :: 0 <= i < DATE_LEN ==> row[i] == bufs[k, i]
    {
      seq(DATE_LEN, i requires 0 <= i < DATE_LEN reads bufs => bufs[k, i])
    }

    ghost function View(): (c: Cache)
      requires Valid()
      reads this, bufs
      ensures Shaped(c)
    {
      Cache([Row(0), Row(1)], active, lastEpoch)
    }

    /** The first update comes from the constructor. */
    constructor (epoch: int, date: Date)
      ensures Valid() && fresh(bufs) && View() == Updated(Blank(), epoch, date)
    {
      bufs := new char[2, 32]((_, _) => '\0');
      active, lastEpoch := 0, 0;
      new;
      assert Row(0) == Blank().bufs[0] && Row(1) == Blank().bufs[1];
      Update(epoch, date);
    }

    /** Writes the inactive buffer, character by character and a NUL, then makes it the active one. */
    method Update(epoch: int, date: Date)
      requires Valid()
      modifies this`active, this`lastEpoch, bufs
      ensures Valid() && View() == Updated(old(View()), epoch, date)
    {
      ghost var c := View();
      if epoch == lastEpoch {
        return;
      }
      lastEpoch := epoch;
      var next := 1 - active;
      for i := 0 to DATE_LEN
        invariant Valid() && active == old(active) && lastEpoch == epoch && next == 1 - active
        invariant forall j :: 0 <= j < i ==> bufs[next, j] == date[j]
        invariant forall j :: 0 <= j < 32 ==> bufs[active, j] == old(bufs[active, j])
      {
        bufs[next, i] := date[i];
      }
      bufs[next, DATE_LEN] := '\0';
      active := next;
      assert Row(next) == date && Row(1 - next) == c.bufs[1 - next];
      assert View().bufs == c.bufs[next := date];
    }

    /** The buffer to read from. */
    method Get() returns (row: nat)
      requires Valid()
      ensures row < 2 && Row(row) == Shown(View())
    {
      row := active;
    }
  }
}
