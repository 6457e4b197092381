/*
  The BrisaFS handlers as they run: a file system object holding the inode table
  `superbloco` and the blocks of `disco` as arrays, each handler a method that
  scans the table with a loop and is proved to do what BrisaSpec says it does.
*/
module BrisaFS {
  import opened BrisaSpec

  /** The index just past the run of leading '/' of s: what is left is s with its
      leading slashes dropped. */
  method SkipSlashes(s: string) returns (k: nat)
    ensures k <= |s| && s[k..] == StripSlashes(s)
    ensures SlashRunEnds(s, k)
  {
    k := 0;
    while k < |s| && s[k] == '/'
      invariant k <= |s|
      invariant StripSlashes(s[k..]) == StripSlashes(s)
      invariant forall j :: 0 <= j < k ==> s[j] == '/'
    {
      assert s[k..][1..] == s[k + 1..];
      k := k + 1;
    }
  }

  /** compara_nome: both names with their leading slashes dropped, compared byte
      for byte. */
  method CompareNames(a: string, b: string) returns (same: bool)
    ensures same <==> ComparaNome(a, b)
  {
    var i := SkipSlashes(a);
    var j := SkipSlashes(b);
    same := a[i..] == b[j..];
  }

  class FileSystem {
    /** The inode table, one slot per possible file. */
    var superbloco: array<Inode>
    /** MAX_BLOCOS blocks of bytes, block b at BlockOffset(b); block 0 is unused here. */
    var disco: array<char>

    ghost function State(): FsState
      reads this, superbloco, disco
    {
      FsState(superbloco[..], disco[..])
    }

    ghost predicate Valid()
      reads this, superbloco, disco
    {
      Inv(State())
    }

    /** init_brisafs: a zeroed table and arena, then the welcome file in slot 0. */
    constructor ()
      ensures Valid() && State() == InitState()
      ensures fresh(superbloco) && fresh(disco)
    {
      superbloco := new Inode[MaxFiles](_ => FreeInode);
      disco := new char[DiskSize](_ => '\0');
      new;
      assert superbloco[..] == BlankState().table;
      assert disco[..] == BlankState().disk;
      assert |StripSlashes(WelcomeName)| < NameCapacity by {
        assert StripSlashes(WelcomeName) == WelcomeName;
      }
      PreencheBloco(0, WelcomeName, DefaultRights, |WelcomeText|, 1, Some(WelcomeText));
      InitStateShape();
    }

    /** preenche_bloco: slot i gets the name without its leading slashes and the
        given fields; the first `tamanho` bytes of block `bloco` get the content,
        or zeros when there is none. */
    method PreencheBloco(i: nat, nome: string, direitos: u16, tamanho: u16, bloco: u16,
                         conteudo: Option<seq<char>>)
      requires PopulateFits(State(), i, nome, tamanho, bloco, conteudo)
      modifies superbloco, disco
      ensures State() == Populate(old(State()), i, nome, direitos, tamanho, bloco, conteudo)
    {
      var k := SkipSlashes(nome);
      superbloco[i] := Inode(nome[k..], direitos, tamanho, bloco);
      var base := BlockOffset(bloco);
      var bytes := if conteudo.Some? then conteudo.value[..tamanho] else Repeat('\0', tamanho);
      forall j | 0 <= j < tamanho {
        disco[base + j] := bytes[j];
      }
      assert disco[..] == Splice(old(disco[..]), base, bytes);
    }

    /** getattr_brisafs: "/" is the root directory, otherwise the first slot in use
        whose name matches, else not-found. */
    method Getattr(path: string) returns (r: Result<Attr>)
      requires Valid()
      ensures r == BrisaSpec.Getattr(State().table, path)
    {
      if path == "/" {
        return Ok(Attr(Directory, RootRights, 2, 0));
      }
      var i := 0;
      while i < MaxFiles
        invariant i <= MaxFiles
        invariant FindFile(State().table, path) == FindFileFrom(State().table, path, i)
      {
        if superbloco[i].bloco != 0 {
          var same := CompareNames(superbloco[i].nome, path);
          if same {
            return Ok(Attr(RegularFile, superbloco[i].direitos, 1, superbloco[i].tamanho));
          }
        }
        i := i + 1;
      }
      return Err(ENOENT);
    }

    /** readdir_brisafs: ".", ".." and the name of every slot in use, in slot order. */
    method Readdir() returns (names: seq<string>)
      requires Valid()
      ensures names == BrisaSpec.Readdir(State().table)
    {
      names := [".", ".."];
      var i := 0;
      while i < MaxFiles
        invariant i <= MaxFiles
        invariant names == [".", ".."] + ActiveNames(superbloco[..i])
      {
        assert superbloco[..i + 1][..i] == superbloco[..i];
        if superbloco[i].bloco != 0 {
          names := names + [superbloco[i].nome];
        }
        i := i + 1;
      }
      assert superbloco[..i] == superbloco[..];
    }

    /** read_brisafs: the bytes copied into the caller's buffer, or not-found. */
    method Read(path: string, size: nat, offset: nat) returns (r: Result<seq<char>>)
      requires Valid()
      ensures r == BrisaSpec.Read(State(), path, size, offset)
    {
      var i := 0;
      while i < MaxFiles
        invariant i <= MaxFiles
        invariant FindFile(State().table, path) == FindFileFrom(State().table, path, i)
      {
        if superbloco[i].bloco != 0 {
          var same := CompareNames(path, superbloco[i].nome);
          if same {
            var len := superbloco[i].tamanho;
            var base := BlockOffset(superbloco[i].bloco);
            if offset >= len {
              return Ok([]);
            }
            if offset + size > len {
              return Ok(disco[base..base + (len - offset)]);
            }
            return Ok(disco[base..base + size]);
          }
        }
        i := i + 1;
      }
      return Err(ENOENT);
    }

    /** The index of the lowest free slot, or MaxFiles when every slot is in use. */
    method FirstFree() returns (i: nat)
      requires Valid()
      ensures i <= MaxFiles
      ensures i < MaxFiles <==> FindFree(State().table).Some?
      ensures i < MaxFiles ==> FindFree(State().table) == Some(i)
    {
      i := 0;
      while i < MaxFiles && superbloco[i].bloco != 0
        invariant i <= MaxFiles
        invariant FindFree(State().table) == FindFreeFrom(State().table, i)
      {
        i := i + 1;
      }
    }

    /** The index of the first slot in use answering to path, or MaxFiles. */
    method FindSlot(path: string) returns (i: nat)
      requires Valid()
      ensures i <= MaxFiles
      ensures i < MaxFiles <==> FindFile(State().table, path).Some?
      ensures i < MaxFiles ==> FindFile(State().table, path) == Some(i)
    {
      i := 0;
      while i < MaxFiles
        invariant i <= MaxFiles
        invariant FindFile(State().table, path) == FindFileFrom(State().table, path, i)
      {
        if superbloco[i].bloco != 0 {
          var same := CompareNames(path, superbloco[i].nome);
          if same {
            return;
          }
        }
        i := i + 1;
      }
    }

    /** The write into a file already held by slot i: the data at `offset` in its
        block, the size set to offset + |buf|. */
    method WriteSlot(i: nat, buf: seq<char>, offset: nat)
      requires Valid() && i < MaxFiles && superbloco[i].bloco != 0 && offset + |buf| <= BlockSize
      modifies superbloco, disco
      ensures State() == BrisaSpec.WriteSlot(old(State()), i, buf, offset)
    {
      assert SlotOk(i, superbloco[i]);
      var base := BlockOffset(superbloco[i].bloco) + offset;
      forall j | 0 <= j < |buf| {
        disco[base + j] := buf[j];
      }
      assert disco[..] == Splice(old(disco[..]), base, buf);
      superbloco[i] := superbloco[i].(tamanho := offset + |buf|);
    }

    /** write_brisafs: into the first matching file at `offset`, or else a new
        file in the lowest free slot; an I/O error when the table is full. */
    method Write(path: string, buf: seq<char>, offset: nat) returns (r: Result<nat>)
      requires Valid() && WriteFits(State(), path, buf, offset)
      modifies superbloco, disco
      ensures Valid()
      ensures (State(), r) == BrisaSpec.Write(old(State()), path, buf, offset)
    {
      ApplyKeeps(State(), WriteOp(path, buf, offset));
      var i := FindSlot(path);
      if i < MaxFiles {
        WriteSlot(i, buf, offset);
        return Ok(|buf|);
      }
      i := FirstFree();
      if i < MaxFiles {
        PreencheBloco(i, path, DefaultRights, |buf|, i + 1, Some(buf));
        return Ok(|buf|);
      }
      return Err(EIO);
    }

    /** truncate_brisafs: too big above one block; otherwise the size of the first
        matching file, or a new zero-filled file in the lowest free slot. */
    method Truncate(path: string, size: nat) returns (r: Status)
      requires Valid() && TruncateFits(State(), path, size)
      modifies superbloco, disco
      ensures Valid()
      ensures (State(), r) == BrisaSpec.Truncate(old(State()), path, size)
    {
      ApplyKeeps(State(), TruncateOp(path, size));
      if size > BlockSize {
        return Failure(EFBIG);
      }
      var findex := FindSlot(path);
      if findex < MaxFiles {
        superbloco[findex] := superbloco[findex].(tamanho := size);
      } else {
        var i := FirstFree();
        if i < MaxFiles {
          PreencheBloco(i, path, DefaultRights, size, i + 1, None);
        }
      }
      return Success;
    }

    /** create_brisafs: an empty file in the lowest free slot, or no-space. */
    method Create(path: string) returns (r: Status)
      requires Valid() && CreateFits(State(), path)
      modifies superbloco, disco
      ensures Valid()
      ensures (State(), r) == BrisaSpec.Create(old(State()), path)
    {
      ApplyKeeps(State(), CreateOp(path));
      var i := FirstFree();
      if i < MaxFiles {
        PreencheBloco(i, path, DefaultRights, 0, i + 1, None);
        return Success;
      }
      return Failure(ENOSPC);
    }

    /** mknod_brisafs: as create for a regular file, invalid for any other kind. */
    method Mknod(path: string, mode: Mode) returns (r: Status)
      requires Valid() && (IsRegular(mode) ==> CreateFits(State(), path))
      modifies superbloco, disco
      ensures Valid()
      ensures (State(), r) == BrisaSpec.Mknod(old(State()), path, mode)
    {
      if IsRegular(mode) {
        r := Create(path);
      } else {
        r := Failure(EINVAL);
      }
    }
  }
}
