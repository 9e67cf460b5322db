/** The registry object: internal/ingesttoken/token.go. */
module TokenRegistry {

  import opened TokenRuns

  /** The directory the registry lives in: its own file, and a temporary one being written. */
  class Disk {
    var file: File
    var temp: File

    constructor (file: File)
      ensures this.file == file && temp == Absent
    {
      this.file, temp := file, Absent;
    }
  }

  /** Which operation of a save the operating system refuses, if any. */
  datatype Io = AllFine | CreateFails | WriteFails | CloseFails | ChmodFails | RenameFails

  /** What a registry and its file go through is what the step does, whatever happened before. */
  ghost predicate TakesStep(valid: map<Token, string>, file: File, e: Event, valid': map<Token, string>, file': File) {
    forall w: World :: w.memory == Up(valid) && w.file == file && Enabled(w, e) ==>
                         Step(w, e).memory == Up(valid') && Step(w, e).file == file'
  }

  class Registry {
    var valid: map<Token, string>
    const disk: Disk
    const persistent: bool

    /** Starts from the file at hand; `ok` is false when that cannot be parsed. */
    static method Open(disk: Disk) returns (ok: bool, r: Registry)
      ensures ok <==> Load(disk.file).Up?
      ensures fresh(r) && r.disk == disk && r.persistent
      ensures ok ==> r.valid == Load(disk.file).valid
    {
      r := new Registry(disk, true);
      match disk.file
      case Absent => ok := true;
      case Empty => ok := true;
      case Tokens(valid) =>
        r.valid := valid;
        ok := true;
      case Corrupt => ok := false;
    }

    constructor (disk: Disk, persistent: bool)
      ensures valid == map[] && this.disk == disk && this.persistent == persistent
    {
      valid, this.disk, this.persistent := map[], disk, persistent;
    }

    /** Writes a temporary file and renames it; it is removed again whatever happens. */
    method SaveLocked(io: Io) returns (ok: bool)
      modifies disk
      ensures ok <==> !persistent || io.AllFine?
      ensures disk.file == if persistent && ok then Tokens(valid) else old(disk.file)
      ensures persistent ==> disk.temp == Absent || io.CreateFails?
      ensures !persistent ==> unchanged(disk)
    {
      if !persistent {
        return true;
      }
      if io.CreateFails? {
        return false;
      }
      disk.temp := Empty;
      if io.WriteFails? {
        disk.temp := Absent;
        return false;
      }
      disk.temp := Tokens(valid);
      if io.CloseFails? || io.ChmodFails? || io.RenameFails? {
        disk.temp := Absent;
        return false;
      }
      disk.file := disk.temp;
      disk.temp := Absent;
      return true;
    }

    /** Records a newly generated token; it is handed out only if it has been saved. */
    method Issue(token: Token, service: string, io: Io) returns (ok: bool)
      modifies this`valid, disk
      ensures valid == old(valid)[token := service]
      ensures ok <==> !persistent || io.AllFine?
      ensures persistent ==>
                TakesStep(old(valid), old(disk.file), Event.Issue(token, service, if ok then Saved else Failed),
                          valid, disk.file)
      ensures !persistent ==> unchanged(disk)
    {
      valid := valid[token := service];
      ok := SaveLocked(io);
    }

    method Revoke(token: Token, io: Io) returns (ok: bool)
      modifies this`valid, disk
      ensures token.text == "" ==> ok && valid == old(valid) && unchanged(disk)
      ensures token.text != "" ==>
                && valid == old(valid) - {token}
                && (ok <==> !persistent || io.AllFine?)
                && (persistent ==>
                      TakesStep(old(valid), old(disk.file), Event.Revoke(token, if ok then Saved else Failed),
                                valid, disk.file))
      ensures !persistent ==> unchanged(disk)
    {
      if token.text == "" {
        return true;
      }
      valid := valid - {token};
      ok := SaveLocked(io);
    }

    /** Compares against every known token. */
    method AcceptsToken(token: Token) returns (yes: bool)
      ensures yes <==> Accepts(World(Up(valid), disk.file, {}, {}, {}, {}), token)
    {
      if token.text == "" {
        return false;
      }
      var todo := valid.Keys;
      while todo != {}
        invariant todo <= valid.Keys && (token in valid ==> token in todo)
      {
        var candidate :| candidate in todo;
        if candidate == token {
          return true;
        }
        todo := todo - {candidate};
      }
      return false;
    }
  }
}
