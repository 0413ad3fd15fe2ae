/**
  The two sides' filesystems. A server only reads: its directory maps a name
  to what `open(name, "rb")` finds. A client only writes `received_<name>`
  with `open(..., "wb")`, which creates or empties the file.
 */
module Files {
  import opened Framing

  /** What a server finds for a name: a readable file, or a name it treats as
      present but whose `open(name, "rb")` raises. */
  datatype Entry = File(data: seq<byte>) | Unreadable

  /** The server's working directory as seen by that server's own test.
      For the stream server a name is absent from the map exactly when
      `os.path.exists(name)` is false; `Unreadable` is a name that exists
      but that `open` refuses (a directory, no read permission).
      For the datagram server a name is absent exactly when `open` raises
      `FileNotFoundError`; `Unreadable` is a name for which `open` raises
      anything else (a directory, no permission, a path through a regular
      file, a name too long, a name holding NUL). */
  type FileSystem = map<string, Entry>

  /** The client's working directory: the files it holds, and the names that
      `open(name, "wb")` refuses. */
  datatype Disk = Disk(files: map<string, seq<byte>>, locked: set<string>)

  /** The name under which a client stores the file it asked for. */
  function OutputName(name: string): (out: string)
    ensures |out| == |name| + 9 && out[..9] == "received_" && out[9..] == name
  {
    "received_" + name
  }

  /** The disk after `name` was (re)created holding exactly `content`. */
  function Write(disk: Disk, name: string, content: seq<byte>): (d: Disk)
    ensures name in d.files && d.files[name] == content
    ensures d.locked == disk.locked
    ensures forall other :: other != name ==> (other in d.files <==> other in disk.files)
    ensures forall other :: other != name && other in disk.files ==> d.files[other] == disk.files[other]
  {
    disk.(files := disk.files[name := content])
  }
}
