/** The cron text of a task record and the trigger built from it.
    Python's `str.split()` (no argument) is modelled exactly over its whitespace
    characters; what the scheduling library does with the six fields is abstract. */
module Cron {
  import opened Outcomes

  /** `c.isspace()` in Python: the characters `str.split()` separates on. */
  predicate IsSpace(c: char) {
    var n := c as int;
    (9 <= n <= 13) || (0x1C <= n <= 0x20) || n == 0x85 || n == 0xA0 || n == 0x1680
    || (0x2000 <= n <= 0x200A) || n == 0x2028 || n == 0x2029 || n == 0x202F
    || n == 0x205F || n == 0x3000
  }

  /** A piece produced by `str.split()`: non-empty and free of whitespace. */
  predicate IsField(w: string) {
    |w| > 0 && forall i :: 0 <= i < |w| ==> !IsSpace(w[i])
  }

  /** Length of the longest whitespace-free prefix of `s`. */
  function WordLength(s: string): (n: nat)
    ensures n <= |s|
    ensures forall i :: 0 <= i < n ==> !IsSpace(s[i])
    ensures n < |s| ==> IsSpace(s[n])
  {
    if s == [] || IsSpace(s[0]) then 0 else 1 + WordLength(s[1..])
  }

  /** `s.split()`: the maximal runs of non-whitespace characters of `s`, in order. */
  function Fields(s: string): (fs: seq<string>)
    ensures forall i :: 0 <= i < |fs| ==> IsField(fs[i])
    decreases |s|
  {
    if s == [] then []
    else if IsSpace(s[0]) then Fields(s[1..])
    else
      var n := WordLength(s);
      [s[..n]] + Fields(s[n..])
  }

  /** `" ".join(fs)`: the fields separated by single spaces. */
  function Join(fs: seq<string>): string {
    if fs == [] then ""
    else if |fs| == 1 then fs[0]
    else fs[0] + " " + Join(fs[1..])
  }

  lemma {:induction false} WordLengthOfWord(w: string, t: string)
    requires forall i :: 0 <= i < |w| ==> !IsSpace(w[i])
    requires t == [] || IsSpace(t[0])
    ensures WordLength(w + t) == |w|
  {
    if w != [] {
      assert (w + t)[1..] == w[1..] + t;
      WordLengthOfWord(w[1..], t);
    }
  }

  /** Splitting a single-space join of well-formed fields gives the fields back. */
  lemma {:induction false} FieldsOfJoin(fs: seq<string>)
    requires forall i :: 0 <= i < |fs| ==> IsField(fs[i])
    ensures Fields(Join(fs)) == fs
  {
    if |fs| == 1 {
      var w := fs[0];
      WordLengthOfWord(w, "");
      assert w + "" == w;
      assert w[..|w|] == w && w[|w|..] == "";
    } else if |fs| > 1 {
      var w, rest := fs[0], Join(fs[1..]);
      var s := w + " " + rest;
      assert s == w + (" " + rest);
      WordLengthOfWord(w, " " + rest);
      assert s[..|w|] == w;
      assert s[|w|..] == " " + rest;
      assert (" " + rest)[1..] == rest;
      FieldsOfJoin(fs[1..]);
    }
  }

  /** An instant, as the scheduling library reports it. */
  type Time = int

  /** The cron trigger built from the six fields, in the order the source
      passes them: second, minute, hour, day of month, day of week, month. */
  datatype Trigger = Trigger(second: string, minute: string, hour: string,
                             day: string, dayOfWeek: string, month: string)

  /** The six fields of a trigger, in cron-text order. */
  function FieldList(t: Trigger): seq<string> {
    [t.second, t.minute, t.hour, t.day, t.dayOfWeek, t.month]
  }

  /** `se, mi, ho, da, we, mo = cron.split()`: succeeds exactly when the text
      has six fields (otherwise Python raises ValueError on the unpacking). */
  function Unpack(cron: string): (r: Option<Trigger>)
    ensures r.Some? <==> |Fields(cron)| == 6
    ensures r.Some? ==> FieldList(r.value) == Fields(cron)
  {
    var fs := Fields(cron);
    if |fs| == 6 then Some(Trigger(fs[0], fs[1], fs[2], fs[3], fs[4], fs[5])) else None
  }

  /** The canonical cron text of a trigger: its six fields, single-spaced. */
  function Render(t: Trigger): string {
    Join(FieldList(t))
  }

  /** Rendering a trigger with well-formed fields and unpacking it again gives the trigger back. */
  lemma UnpackRender(t: Trigger)
    requires forall i :: 0 <= i < 6 ==> IsField(FieldList(t)[i])
    ensures Unpack(Render(t)) == Some(t)
  {
    FieldsOfJoin(FieldList(t));
  }

  /** The five-field text "0 0 8 * *" is not a valid cron line: it splits into five fields. */
  lemma FiveFieldCronRejected()
    ensures Unpack("0 0 8 * *") == None
  {
    var fs := ["0", "0", "8", "*", "*"];
    assert forall i :: 0 <= i < |fs| ==> IsField(fs[i]);
    assert Join(fs) == "0 0 8 * *";
    FieldsOfJoin(fs);
  }

  /** "0 0 8 * * 1" splits into six fields. */
  lemma SixFieldCronAccepted()
    ensures |Fields("0 0 8 * * 1")| == 6
  {
    var fs := ["0", "0", "8", "*", "*", "1"];
    assert forall i :: 0 <= i < |fs| ==> IsField(fs[i]);
    assert Join(fs) == "0 0 8 * * 1";
    FieldsOfJoin(fs);
  }
}
