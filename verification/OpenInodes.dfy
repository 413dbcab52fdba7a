/** The list of open inodes (filesys/inode.c): opening an inode twice gives the same struct inode,
    because the list is searched for its sector first. */
module OpenInodes {
  import opened InodeIO
  import opened Options

  /** block_sector_t */
  type Sec = nat

  /** struct inode; `data` is the on-disk part. */
  datatype Inode = Inode(sector: Sec, openCnt: int, removed: bool, denyWriteCnt: int, data: Extent)

  /** The search of inode_open. */
  function FindOpen(open: seq<Inode>, s: Sec): (r: Option<nat>)
    ensures r.Some? ==> r.value < |open| && open[r.value].sector == s
  {
    if open == [] then None
    else if open[0].sector == s then Some(0)
    else
      var r := FindOpen(open[1..], s);
      if r.Some? then Some(r.value + 1) else None
  }

  lemma {:induction false} FindOpenMeaning(open: seq<Inode>, s: Sec)
    ensures var r := FindOpen(open, s);
      forall i | 0 <= i < |open| && (r.Some? ==> i < r.value) :: open[i].sector != s
  {
    if open != [] && open[0].sector != s {
      FindOpenMeaning(open[1..], s);
      assert forall i | 0 < i < |open| :: open[i] == open[1..][i - 1];
    }
  }

  function OpenSectors(open: seq<Inode>): set<Sec> {
    set i | 0 <= i < |open| :: open[i].sector
  }

  /** The open inodes by their sectors. */
  function Opens(open: seq<Inode>): map<Sec, Inode> {
    map s | s in OpenSectors(open) && FindOpen(open, s).Some? :: open[FindOpen(open, s).value]
  }

  /** No sector has two struct inodes. */
  ghost predicate DistinctSectors(open: seq<Inode>) {
    forall i, j | 0 <= i < j < |open| :: open[i].sector != open[j].sector
  }

  function SetInode(open: seq<Inode>, i: Inode): seq<Inode> {
    var k := FindOpen(open, i.sector);
    if k.Some? then open[k.value := i] else open
  }

  /** list_remove */
  function DropInode(open: seq<Inode>, s: Sec): seq<Inode> {
    var k := FindOpen(open, s);
    if k.Some? then open[..k.value] + open[k.value + 1..] else open
  }

  lemma OpensKeys(open: seq<Inode>)
    ensures Opens(open).Keys == OpenSectors(open)
    ensures forall s :: s in Opens(open) <==> FindOpen(open, s).Some?
    ensures forall s | s in Opens(open) :: Opens(open)[s].sector == s
  {
    forall s ensures s in OpenSectors(open) <==> FindOpen(open, s).Some? {
      FindOpenMeaning(open, s);
      if FindOpen(open, s).Some? {
        assert open[FindOpen(open, s).value].sector in OpenSectors(open);
      }
    }
  }

  /** Without two inodes of a sector, the one found is the only one. */
  lemma FoundIs(open: seq<Inode>, k: nat)
    requires DistinctSectors(open) && k < |open|
    ensures FindOpen(open, open[k].sector) == Some(k) && open[k].sector in Opens(open)
    ensures Opens(open)[open[k].sector] == open[k]
  {
    FindOpenMeaning(open, open[k].sector);
    OpensKeys(open);
  }

  lemma SetInodeIs(open: seq<Inode>, i: Inode)
    requires DistinctSectors(open) && i.sector in Opens(open)
    ensures DistinctSectors(SetInode(open, i)) && Opens(SetInode(open, i)) == Opens(open)[i.sector := i]
  {
    var r, k := SetInode(open, i), FindOpen(open, i.sector).value;
    hide FindOpen;
    OpensKeys(open);
    assert DistinctSectors(r);
    SameSectors(open, r, k, i);
  }

  /** Where the inode of an open sector is. */
  lemma PlaceOf(open: seq<Inode>, s: Sec) returns (j: nat)
    requires s in Opens(open)
    ensures j < |open| && open[j].sector == s && Opens(open)[s] == open[j]
  {
    j := FindOpen(open, s).value;
  }

  lemma SameSectors(open: seq<Inode>, r: seq<Inode>, k: nat, i: Inode)
    requires DistinctSectors(open) && DistinctSectors(r) && k < |open| && r == open[k := i]
    requires open[k].sector == i.sector
    ensures Opens(r) == Opens(open)[i.sector := i]
  {
    hide FindOpen, Opens, OpenSectors, DistinctSectors;
    forall s | s in Opens(r) ensures s in Opens(open) && Opens(r)[s] == if s == i.sector then i else Opens(open)[s] {
      var j := PlaceOf(r, s);
      FoundIs(open, j);
      FoundIs(r, k);
    }
    forall s | s in Opens(open) ensures s in Opens(r) {
      var j := PlaceOf(open, s);
      FoundIs(r, j);
    }
    FoundIs(open, k);
  }

  lemma FrontInodeIs(open: seq<Inode>, i: Inode)
    requires DistinctSectors(open) && i.sector !in Opens(open)
    ensures DistinctSectors([i] + open) && Opens([i] + open) == Opens(open)[i.sector := i]
  {
    hide FindOpen, Opens, OpenSectors, DistinctSectors;
    var r := [i] + open;
    FrontDistinct(open, i);
    FoundIs(r, 0);
    forall s | s in Opens(r) && s != i.sector ensures s in Opens(open) && Opens(r)[s] == Opens(open)[s] {
      var j := PlaceOf(r, s);
      FoundIs(open, j - 1);
    }
    forall s | s in Opens(open) ensures s in Opens(r) {
      var j := PlaceOf(open, s);
      FoundIs(r, j + 1);
    }
  }

  lemma FrontDistinct(open: seq<Inode>, i: Inode)
    requires DistinctSectors(open) && i.sector !in Opens(open)
    ensures DistinctSectors([i] + open)
  {
    hide Opens, FindOpen;
    OpensKeys(open);
    assert forall j | 0 <= j < |open| :: open[j].sector in OpenSectors(open);
  }

  lemma DropInodeIs(open: seq<Inode>, s: Sec)
    requires DistinctSectors(open) && s in Opens(open)
    ensures DistinctSectors(DropInode(open, s)) && Opens(DropInode(open, s)) == Opens(open) - {s}
  {
    OpensKeys(open);
    var k := FindOpen(open, s).value;
    var r := open[..k] + open[k + 1..];
    assert forall j | 0 <= j < |r| :: r[j] == open[if j < k then j else j + 1];
    assert DistinctSectors(r);
    Dropped(open, r, k);
  }

  lemma Dropped(open: seq<Inode>, r: seq<Inode>, k: nat)
    requires DistinctSectors(open) && DistinctSectors(r) && k < |open| && r == open[..k] + open[k + 1..]
    ensures Opens(r) == Opens(open) - {open[k].sector}
  {
    hide FindOpen, Opens, OpenSectors, DistinctSectors;
    FoundIs(open, k);
    forall t | t in Opens(r) ensures t in Opens(open) && t != open[k].sector && Opens(r)[t] == Opens(open)[t] {
      var j := PlaceOf(r, t);
      var i := if j < k then j else j + 1;
      assert r[j] == open[i];
      FoundIs(open, i);
    }
    forall t | t in Opens(open) && t != open[k].sector ensures t in Opens(r) {
      var j := PlaceOf(open, t);
      var i := if j < k then j else j - 1;
      assert r[i] == open[j];
      FoundIs(r, i);
    }
  }
}
