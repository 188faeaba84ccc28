// What storage/page.h and storage/file_manager.c are to the buffer pool: page images and the files
// that hold them.
module Storage {

  newtype byte = x: int | 0 <= x < 256

  const PAGE_DATA_SIZE: nat := 4088     // PAGE_SIZE less the two integers before the data

  datatype Image = Image(pageId: int, numRecords: int, data: seq<byte>)

  // A page of an open file.
  datatype Place = Place(fd: int, pageId: int)

  type Disk = map<Place, Image>

  function Zeros(n: nat): (s: seq<byte>)
    ensures |s| == n && forall i :: 0 <= i < n ==> s[i] == 0
  {
    seq(n, i => 0 as byte)
  }

  // page_init.
  function EmptyPage(pageId: int): Image {
    Image(pageId, 0, Zeros(PAGE_DATA_SIZE))
  }

  // A page beyond the end of its file reads as an empty one.
  function OnDisk(d: Disk, at: Place): Image {
    if at in d then d[at] else EmptyPage(at.pageId)
  }

  lemma BeyondEnd(d: Disk, at: Place)
    requires at !in d
    ensures var p := OnDisk(d, at);
      p.pageId == at.pageId && p.numRecords == 0 && |p.data| == 4088 && forall i :: 0 <= i < 4088 ==> p.data[i] == 0
  {
  }

  // What the operating system does with one pread or pwrite: moves the whole page, nothing, or a part;
  // left is what the part makes of its destination.
  datatype Transfer = Whole | Failed | Short(left: Image)

  // What is in the destination afterwards.
  function Arrived(io: Transfer, page: Image, was: Image): Image {
    match io
    case Whole => page
    case Failed => was
    case Short(left) => left
  }

  function Written(d: Disk, at: Place, page: Image, io: Transfer): Disk {
    if io.Failed? then d else d[at := Arrived(io, page, page)]
  }

  // The open files.
  class Files {
    var pages: Disk

    constructor (pages: Disk)
      ensures this.pages == pages
    {
      this.pages := pages;
    }

    method ReadPage(at: Place, io: Transfer, into: Image) returns (rc: int, image: Image)
      ensures rc == (if io.Whole? then 0 else -1)
      ensures image == Arrived(io, OnDisk(pages, at), into)
    {
      if io.Failed? { return -1, into; }
      if io.Short? { return -1, io.left; }
      if at !in pages { return 0, EmptyPage(at.pageId); }
      return 0, pages[at];
    }

    method WritePage(at: Place, image: Image, io: Transfer) returns (rc: int)
      modifies this
      ensures rc == (if io.Whole? then 0 else -1)
      ensures pages == Written(old(pages), at, image, io)
    {
      if io.Failed? { return -1; }
      pages := pages[at := if io.Whole? then image else io.left];
      return if io.Whole? then 0 else -1;
    }
  }
}
