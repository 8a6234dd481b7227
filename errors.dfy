/**
 * The error log entries of the manager (`Error`, 3/Memory/source/Error.cpp).
 */
module Errors {

  /** `error_t`, with its numeric codes. */
  datatype ErrorKind = SizeError | MemoryLeak | DoubleFree | AccessError

  function Code(k: ErrorKind): (c: nat)
    ensures c < 4
  {
    match k
    case SizeError => 0
    case MemoryLeak => 1
    case DoubleFree => 2
    case AccessError => 3
  }

  /** The name table that `get_description` indexes by code. */
  const KindNames: seq<string> := ["SIZE_ERROR", "MEMORY_LEAK", "DOUBLE_FREE", "ACCESS_ERROR"]

  /** The name of a kind, as a case analysis; it agrees with the code-indexed table. */
  function KindName(k: ErrorKind): (s: string)
    ensures s == KindNames[Code(k)]
  {
    match k
    case SizeError => "SIZE_ERROR"
    case MemoryLeak => "MEMORY_LEAK"
    case DoubleFree => "DOUBLE_FREE"
    case AccessError => "ACCESS_ERROR"
  }

  /** `needle` occurs as a contiguous piece of `hay` (`std::string::find != npos`). */
  predicate Occurs(needle: string, hay: string) {
    exists i :: 0 <= i <= |hay| && OccursAt(needle, hay, i)
  }

  predicate OccursAt(needle: string, hay: string, i: int) {
    0 <= i <= |hay| - |needle| && hay[i..i + |needle|] == needle
  }

  /** The middle piece of a concatenation occurs in it. */
  lemma OccursMiddle(x: string, y: string, z: string)
    ensures Occurs(y, x + y + z)
  {
    var h := x + y + z;
    assert h[|x|..|x| + |y|] == y;
    assert OccursAt(y, h, |x|);
  }

  /** Every character of a string that occurs in `hay` is a character of `hay`. */
  lemma OccursChars(needle: string, hay: string, c: char)
    requires Occurs(needle, hay) && c in needle
    ensures c in hay
  {
    var i :| 0 <= i <= |hay| && OccursAt(needle, hay, i);
    assert 0 <= i <= |hay| - |needle| && hay[i..i + |needle|] == needle;
    var j :| 0 <= j < |needle| && needle[j] == c;
    assert hay[i + j] == hay[i..i + |needle|][j];
  }

  datatype Error = Error(kind: ErrorKind, description: string, program: string)
  {
    /**
     * `get_description`, as written: "Error: ", the kind's name, ": " and the
     * message. The program name is not part of it.
     */
    function Description(): (d: string)
      ensures Occurs(KindName(kind), d) && Occurs(description, d)
    {
      var d := "Error: " + KindName(kind) + ": " + description;
      OccursMiddle("Error: ", KindName(kind), ": " + description);
      assert d == "Error: " + KindName(kind) + (": " + description);
      OccursMiddle("Error: " + KindName(kind) + ": ", description, "");
      assert d == "Error: " + KindName(kind) + ": " + description + "";
      d
    }

    /**
     * The description as the error's test reads it: it also names the program.
     * The program name is placed between the kind and the message.
     */
    function DescriptionWithProgram(): (d: string)
      ensures Occurs(KindName(kind), d) && Occurs(program, d) && Occurs(description, d)
    {
      var d := "Error: " + KindName(kind) + ": " + program + ": " + description;
      OccursMiddle("Error: ", KindName(kind), ": " + program + ": " + description);
      assert d == "Error: " + KindName(kind) + (": " + program + ": " + description);
      OccursMiddle("Error: " + KindName(kind) + ": ", program, ": " + description);
      assert d == "Error: " + KindName(kind) + ": " + program + (": " + description);
      OccursMiddle("Error: " + KindName(kind) + ": " + program + ": ", description, "");
      assert d == "Error: " + KindName(kind) + ": " + program + ": " + description + "";
      d
    }
  }

  /** A string holding a character that `hay` lacks does not occur in `hay`. */
  lemma AbsentChar(needle: string, hay: string, c: char)
    requires c in needle && c !in hay
    ensures !Occurs(needle, hay)
  {
    if Occurs(needle, hay) {
      OccursChars(needle, hay, c);
    }
  }

  /** A character absent from the fixed text and from the message is absent from the description. */
  lemma DescriptionLacks(e: Error, c: char)
    requires c !in "Error: " + KindName(e.kind) + ": " && c !in e.description
    ensures c !in e.Description()
  {
    assert e.Description() == ("Error: " + KindName(e.kind) + ": ") + e.description;
  }

  /**
   * The error of Tests' `ConstructionAndGetters`: the program name is not found in
   * the description `get_description` builds, though the test expects it.
   */
  lemma DescriptionOmitsProgram()
    ensures !Occurs("test_program", Error(SizeError, "Memory limit exceeded", "test_program").Description())
    ensures Occurs("test_program", Error(SizeError, "Memory limit exceeded", "test_program").DescriptionWithProgram())
  {
    var e := Error(SizeError, "Memory limit exceeded", "test_program");
    assert KindName(e.kind) == "SIZE_ERROR";
    assert 'g' !in "Error: " + KindName(e.kind) + ": ";
    DescriptionLacks(e, 'g');
    assert "test_program"[8] == 'g';
    AbsentChar("test_program", e.Description(), 'g');
  }
}
