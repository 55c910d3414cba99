/** The records of the four account database files and the values shared by all modules. */
module Types {

  datatype Option<+T> = None | Some(value: T) {
    /** The value carried, or `default` where there is none. */
    function GetOr(default: T): T {
      match this
      case Some(v) => v
      case None => default
    }
  }

  /** G_MAXUINT: the largest 32-bit id, which also stands for "no id". */
  const MAX_ID := 0xFFFF_FFFF
  const INVALID_ID := MAX_ID

  /** uid_t and gid_t. */
  type Id = x: int | 0 <= x <= MAX_ID

  /** A line of the passwd file. */
  datatype Passwd = Passwd(name: string, passwd: string, uid: Id, gid: Id,
                           gecos: string, dir: string, shell: string)

  /** The ageing fields of a shadow line. */
  datatype Ageing = Ageing(lastChange: int, min: int, max: int, warn: int,
                           inactive: int, expire: int, flag: int)

  /** A line of the shadow file. */
  datatype Shadow = Shadow(name: string, secret: string, ageing: Ageing)

  /** A line of the group file. */
  datatype Group = Group(name: string, passwd: string, gid: Id, mem: seq<string>)

  /** A line of the gshadow file. */
  datatype Gshadow = Gshadow(name: string, secret: string, adm: seq<string>, mem: seq<string>)

  /** The keys by which the files are searched. */
  function PwName(e: Passwd): string { e.name }
  function PwUid(e: Passwd): Id { e.uid }
  function PwGid(e: Passwd): Id { e.gid }
  function SpName(e: Shadow): string { e.name }
  function GrName(e: Group): string { e.name }
  function GrGid(e: Group): Id { e.gid }
  function SgName(e: Gshadow): string { e.name }

  /** GumOpType */
  datatype OpType = Add | Delete | Modify

  /** How each system call of one file replacement ends; `badPut` is the first record that cannot be written. */
  datatype Faults = Faults(openSource: bool, openDup: bool, attributes: bool, badPut: Option<nat>,
                           flush: bool, unlinkOld: bool, link: bool, rename: bool,
                           dropBackup: bool, unlinkTmp: bool)
  {
    /** The first n records reach the duplicate. */
    predicate PutsOk(n: nat) {
      badPut.None? || n <= badPut.value
    }

    /** The replacement by n records gets as far as the rename. */
    predicate Reaches(n: nat) {
      openSource && openDup && attributes && PutsOk(n) && flush
    }

    /** Every call on which the outcome of writing n records depends succeeds. */
    predicate Succeeds(n: nat) {
      Reaches(n) && rename
    }
  }

  /** The fate of every file replacement, in the order in which they are started. */
  type Oracle = nat -> Faults

  ghost predicate WritesSucceed(io: Oracle) {
    forall t: nat, n: nat :: io(t).Succeeds(n)
  }
}
