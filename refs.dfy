/** Values shared by both generations of the cached ref database:
    refs, object ids, the result codes of JGit writes, string helpers with
    Java's semantics, and the "identifier$name" cache-key encoding. */
module Refs {

  datatype Option<+T> = None | Some(value: T)

  /** The exceptions the modelled Java code throws, catches or rewraps. */
  datatype Exception =
    | IOException
    | ExecutionException
    | IllegalStateException
    | NullPointerException
    | UnsupportedOperationException
    | RuntimeException
    | IllegalArgumentException

  datatype Result<+T> = Ok(value: T) | Fail(error: Exception)

  /** Checked exceptions: a Guava cache wraps one thrown by a loader in an
      ExecutionException; any other propagates unchecked. */
  predicate Checked(e: Exception)
  {
    e == IOException || e == ExecutionException
  }

  /** A JGit ObjectId, identified by its hexadecimal name. It is a type of its
      own: a Java String never equals an ObjectId. */
  datatype ObjectId = ObjectId(name: string)

  /** ObjectId.zeroId(): forty '0' digits. */
  const ZeroId: ObjectId := ObjectId("0000000000000000000000000000000000000000")

  /** A JGit Ref: either a direct ref (unborn when it has no object id) or a
      symbolic ref pointing at another ref. */
  datatype Ref =
    | Direct(name: string, id: Option<ObjectId>)
    | Symbolic(name: string, target: Ref)

  /** Ref.getLeaf(): follow symbolic refs to the direct ref at the end. */
  function Leaf(r: Ref): (leaf: Ref)
    ensures leaf.Direct?
    ensures r.Direct? ==> leaf == r
  {
    match r
    case Direct(_, _) => r
    case Symbolic(_, t) => Leaf(t)
  }

  /** Ref.getObjectId(): a symbolic ref reports its leaf's object id. */
  function ObjectIdOf(r: Ref): Option<ObjectId>
  {
    Leaf(r).id
  }

  // ---------------------------------------------------------------------
  // Strings with java.lang.String semantics
  // ---------------------------------------------------------------------

  /** String.startsWith */
  predicate StartsWith(s: string, prefix: string)
  {
    |prefix| <= |s| && s[..|prefix|] == prefix
  }

  /** String.contains: `t` occurs in `s` as a contiguous substring. */
  predicate Contains(s: string, t: string)
    decreases |s|
  {
    StartsWith(s, t) || (|s| > 0 && Contains(s[1..], t))
  }

  lemma {:induction false} StartsWithContains(s: string, t: string)
    requires StartsWith(s, t)
    ensures Contains(s, t)
  {
  }

  /** Character.isWhitespace */
  predicate IsJavaWhitespace(c: char)
  {
    c in {' ', '\t', '\n', '\U{B}', '\U{C}', '\r', '\U{1C}', '\U{1D}', '\U{1E}', '\U{1F}',
          '\U{1680}', '\U{2000}', '\U{2001}', '\U{2002}', '\U{2003}', '\U{2004}', '\U{2005}',
          '\U{2006}', '\U{2008}', '\U{2009}', '\U{200A}', '\U{2028}', '\U{2029}', '\U{205F}',
          '\U{3000}'}
  }

  /** String.isBlank: empty or whitespace only. */
  predicate IsBlank(s: string)
  {
    forall i :: 0 <= i < |s| ==> IsJavaWhitespace(s[i])
  }

  // ---------------------------------------------------------------------
  // Cache keys: String.format("%s$%s", identifier, ref)
  // ---------------------------------------------------------------------

  const Separator: char := '$'

  function UniqueName(identifier: string, ref: string): (key: string)
    ensures |key| == |identifier| + 1 + |ref|
    ensures key[|identifier|] == Separator
  {
    identifier + [Separator] + ref
  }

  /** identifier + "$": the prefix every key of one identifier starts with. */
  function KeyPrefix(identifier: string): string
  {
    identifier + [Separator]
  }

  /** A key starts with KeyPrefix(identifier) exactly when it is
      UniqueName(identifier, name) for some name, namely its suffix. */
  lemma KeyPrefixOfUniqueName(identifier: string, key: string)
    ensures StartsWith(key, KeyPrefix(identifier)) <==>
              |key| > |identifier| && key == UniqueName(identifier, key[|identifier| + 1..])
  {
    if StartsWith(key, KeyPrefix(identifier)) {
      assert key == key[..|identifier| + 1] + key[|identifier| + 1..];
    }
    if |key| > |identifier| && key == UniqueName(identifier, key[|identifier| + 1..]) {
      assert key[..|identifier| + 1] == KeyPrefix(identifier);
    }
  }

  /** When neither identifier contains '$', keys of different identifiers
      never collide and the encoding can be inverted. */
  lemma {:induction false} UniqueNameInjective(i1: string, r1: string, i2: string, r2: string)
    requires Separator !in i1 && Separator !in i2
    ensures UniqueName(i1, r1) == UniqueName(i2, r2) <==> i1 == i2 && r1 == r2
  {
    if UniqueName(i1, r1) == UniqueName(i2, r2) {
      var k := UniqueName(i1, r1);
      assert i1 == k[..|i1|] == i2;
      assert r1 == k[|i1| + 1..] == r2;
    }
  }

  /** Keys of an identifier without '$' never start with the key prefix of
      another such identifier. */
  lemma NoCrossIdentifierPrefix(identifier: string, other: string, ref: string)
    requires Separator !in identifier && Separator !in other && identifier != other
    ensures !StartsWith(UniqueName(other, ref), KeyPrefix(identifier))
  {
    var key := UniqueName(other, ref);
    if StartsWith(key, KeyPrefix(identifier)) {
      KeyPrefixOfUniqueName(identifier, key);
      UniqueNameInjective(identifier, key[|identifier| + 1..], other, ref);
    }
  }

  /** With a '$' inside an identifier the encoding is ambiguous. */
  lemma UniqueNameCollides()
    ensures UniqueName("a$b", "c") == UniqueName("a", "b$c")
  {
  }

  // ---------------------------------------------------------------------
  // Results of JGit writes
  // ---------------------------------------------------------------------

  /** RefUpdate.Result */
  datatype UpdateResult =
    | NOT_ATTEMPTED | LOCK_FAILURE | NO_CHANGE | NEW | FORCED | FAST_FORWARD | RENAMED
    | REJECTED | REJECTED_CURRENT_BRANCH | IO_FAILURE | REJECTED_MISSING_OBJECT
    | REJECTED_OTHER_REASON

  /** SUCCESSFUL_UPDATES / SUCCESSFUL_RENAMES: the codes after which the
      interceptors touch the cache. */
  const SuccessfulUpdates: set<UpdateResult> := {NEW, FORCED, FAST_FORWARD, RENAMED}

  /** ReceiveCommand.Type */
  datatype CommandType = CREATE | UPDATE | UPDATE_NONFASTFORWARD | DELETE

  /** ReceiveCommand.Result */
  datatype CommandResult =
    | CMD_NOT_ATTEMPTED | REJECTED_NOCREATE | REJECTED_NODELETE | REJECTED_NONFASTFORWARD
    | CMD_REJECTED_CURRENT_BRANCH | CMD_REJECTED_MISSING_OBJECT | CMD_REJECTED_OTHER_REASON
    | CMD_LOCK_FAILURE | OK

  /** One command of a batch, as the backing batch left it after execute(). */
  datatype ReceiveCommand = ReceiveCommand(
    refName: string,
    oldId: ObjectId,
    newId: ObjectId,
    kind: CommandType,
    result: CommandResult)

  /** The names of the commands the batch reports OK. */
  function OkNames(cmds: seq<ReceiveCommand>): set<string>
  {
    set c | c in cmds && c.result == OK :: c.refName
  }
}
