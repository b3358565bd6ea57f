/**
  The name builder of the GPU launcher's user-entry lookup: a fully
  qualified entry class name such as `a::b::C` becomes a forward
  declaration (`namespace a { namespace b { class C; } } `) followed by the
  mangling stub, plus the two template-instantiation names whose mangled
  symbols are looked up afterwards.
 */
module EntryNames {
  import opened Wrappers

  /** The name expression of the init kernel, before the entry name. */
  const InitTemplate: string := "::madrona::mwGPU::submitInit<::"
  /** The name expression of the run kernel, before the entry name. */
  const RunTemplate: string := "::madrona::mwGPU::submitRun<::"
  /** The kernel templates appended after the forward declaration. */
  const MangleCodePostfix: string :=
    "\n#include <cstdint>\n\nnamespace madrona { namespace mwGPU {\n\n"
    + "template <typename T> __global__ void submitInit(uint32_t, void *) {}\n"
    + "template <typename T> __global__ void submitRun(uint32_t) {}\n\n} }\n"
  /** The message of the fatal error raised for an empty class name. */
  const InvalidEntryMessage: string := "Invalid entry class name\n"

  /** A namespace separator `::` starts at index `i` of `s`. */
  predicate SepAt(s: string, i: int)
  {
    0 <= i && i + 2 <= |s| && s[i] == ':' && s[i + 1] == ':'
  }

  /** `s` contains no namespace separator. */
  predicate NoSep(s: string)
  {
    forall i :: 0 <= i < |s| ==> !SepAt(s, i)
  }

  /**
    The entry name with one user-supplied leading `::` removed (it is added
    back by the templates). Only the first two characters are inspected.
   */
  function TrimLeadingSep(s: string): (t: string)
    ensures SepAt(s, 0) ==> s == "::" + t
    ensures !SepAt(s, 0) ==> t == s
  {
    if SepAt(s, 0) then s[2..] else s
  }

  /**
    `string_view::find("::", from)`: the position of a separator at or
    after `from`, or none (`FindIsFirst` shows it is the first one).
   */
  function Find(s: string, from: nat): (r: Option<nat>)
    requires from <= |s|
    ensures r.Some? ==> from <= r.value && SepAt(s, r.value)
    decreases |s| - from
  {
    if from + 2 > |s| then None
    else if SepAt(s, from) then Some(from)
    else Find(s, from + 1)
  }

  /** `Find` returns the leftmost separator at or after `from`, and none only when there is none. */
  lemma {:induction false} FindIsFirst(s: string, from: nat)
    requires from <= |s|
    ensures Find(s, from).Some? ==> forall j :: from <= j < Find(s, from).value ==> !SepAt(s, j)
    ensures Find(s, from).None? ==> forall j :: from <= j < |s| ==> !SepAt(s, j)
    decreases |s| - from
  {
    if from + 2 <= |s| && !SepAt(s, from) {
      FindIsFirst(s, from + 1);
    }
  }

  /** A qualified name cut at its separators: the enclosing namespaces, outermost first, and the class. */
  datatype Parts = Parts(namespaces: seq<string>, className: string)

  /** The qualified name the parts spell: every namespace followed by `::`, then the class. */
  function Qualify(p: Parts): string
    decreases |p.namespaces|
  {
    if p.namespaces == [] then p.className
    else p.namespaces[0] + "::" + Qualify(Parts(p.namespaces[1..], p.className))
  }

  /**
    The cuts the separator scan makes in `s[from..]`: each separator found,
    left to right, closes one namespace; what follows the last one is the
    class name.
   */
  function Split(s: string, from: nat): Parts
    requires from <= |s|
    decreases |s| - from
  {
    match Find(s, from)
    case None => Parts([], s[from..])
    case Some(off) =>
      var rest := Split(s, off + 2);
      Parts([s[from..off]] + rest.namespaces, rest.className)
  }

  /** `namespace X { ` for every namespace, in order. */
  function Opens(namespaces: seq<string>): string
  {
    if namespaces == [] then ""
    else Opens(namespaces[..|namespaces| - 1]) + "namespace " + namespaces[|namespaces| - 1] + " { "
  }

  /** `k` closing braces, each followed by a space. */
  function Closes(k: nat): string
  {
    if k == 0 then "" else Closes(k - 1) + "} "
  }

  /** The forward declaration of the class inside its namespaces. */
  function ForwardDeclaration(p: Parts): string
  {
    Opens(p.namespaces) + "class " + p.className + "; " + Closes(|p.namespaces|)
  }

  /** The stub source compiled for name mangling and the two name expressions looked up in it. */
  datatype UserEntries = UserEntries(mangleCode: string, initName: string, runName: string)

  /** What the name builder produces for an entry class name, or the fatal error. */
  function UserEntriesOf(entryClass: string): Result<UserEntries, string>
  {
    var view := TrimLeadingSep(entryClass);
    var parts := Split(view, 0);
    if parts.className == [] then Failure(InvalidEntryMessage)
    else Success(UserEntries(
      ForwardDeclaration(parts) + MangleCodePostfix,
      InitTemplate + view + ">",
      RunTemplate + view + ">"))
  }

  /**
    The name builder: trims a leading `::`, scans the separators left to
    right, opening one namespace per separator, declares the class, closes
    every namespace, and forms the two name expressions from the trimmed
    name. An empty class name is fatal.
   */
  method GetUserEntries(entryClass: string) returns (r: Result<UserEntries, string>)
    ensures r == UserEntriesOf(entryClass)
  {
    var entryView := entryClass;
    if |entryView| >= 2 && entryView[0] == ':' && entryView[1] == ':' {
      entryView := entryView[2..];
    }
    assert entryView == TrimLeadingSep(entryClass);

    var fwdDeclare, numNamespaces, prevOff := OpenNamespaces(entryView);

    var classView := entryView[prevOff..];
    if |classView| == 0 {
      return Failure(InvalidEntryMessage);
    }

    fwdDeclare := fwdDeclare + "class " + classView + "; ";
    fwdDeclare := CloseNamespaces(fwdDeclare, numNamespaces);

    var mangleCode := fwdDeclare + MangleCodePostfix;
    var initName := InitTemplate + entryView + ">";
    var runName := RunTemplate + entryView + ">";
    r := Success(UserEntries(mangleCode, initName, runName));
  }

  /**
    The separator scan of the name builder: opens one namespace per
    separator found, left to right, and stops at the offset where the
    class name starts.
   */
  method OpenNamespaces(entryView: string) returns (fwdDeclare: string, numNamespaces: nat, prevOff: nat)
    ensures prevOff <= |entryView|
    ensures Split(entryView, 0).className == entryView[prevOff..]
    ensures fwdDeclare == Opens(Split(entryView, 0).namespaces)
    ensures numNamespaces == |Split(entryView, 0).namespaces|
  {
    fwdDeclare := "";
    numNamespaces := 0;
    prevOff := 0;
    ghost var doneNamespaces: seq<string> := [];
    ghost var whole := Split(entryView, 0);
    var off := Find(entryView, prevOff);
    while off.Some?
      invariant prevOff <= |entryView|
      invariant off == Find(entryView, prevOff)
      invariant whole.namespaces == doneNamespaces + Split(entryView, prevOff).namespaces
      invariant whole.className == Split(entryView, prevOff).className
      invariant fwdDeclare == Opens(doneNamespaces) && numNamespaces == |doneNamespaces|
      decreases |entryView| - prevOff
    {
      var nsView := entryView[prevOff .. off.value];
      fwdDeclare := fwdDeclare + "namespace " + nsView + " { ";
      OpensSnoc(doneNamespaces, nsView);
      ScanStep(entryView, prevOff, off.value, doneNamespaces, whole);
      doneNamespaces := doneNamespaces + [nsView];
      prevOff := off.value + 2;
      numNamespaces := numNamespaces + 1;
      off := Find(entryView, prevOff);
    }
    SplitDone(entryView, prevOff);
    assert doneNamespaces + [] == doneNamespaces;
  }

  /** Appends one closing brace per opened namespace. */
  method CloseNamespaces(fwdDeclare: string, numNamespaces: nat) returns (closed: string)
    ensures closed == fwdDeclare + Closes(numNamespaces)
  {
    closed := fwdDeclare;
    var i := 0;
    while i < numNamespaces
      invariant 0 <= i <= numNamespaces
      invariant closed == fwdDeclare + Closes(i)
    {
      closed := closed + "} ";
      i := i + 1;
    }
  }

  /** One step of the scan: the separator found closes the namespace before it. */
  lemma SplitStep(s: string, from: nat, off: nat)
    requires from <= |s| && Find(s, from) == Some(off)
    ensures off + 2 <= |s|
    ensures Split(s, from).namespaces == [s[from..off]] + Split(s, off + 2).namespaces
    ensures Split(s, from).className == Split(s, off + 2).className
  {
  }

  /** The namespaces cut so far and those still ahead make up the whole scan, one step later too. */
  lemma ScanStep(s: string, from: nat, off: nat, done: seq<string>, whole: Parts)
    requires from <= |s| && Find(s, from) == Some(off)
    requires whole.namespaces == done + Split(s, from).namespaces
    requires whole.className == Split(s, from).className
    ensures off + 2 <= |s|
    ensures whole.namespaces == (done + [s[from..off]]) + Split(s, off + 2).namespaces
    ensures whole.className == Split(s, off + 2).className
  {
    SplitStep(s, from, off);
    assert done + ([s[from..off]] + Split(s, off + 2).namespaces)
        == (done + [s[from..off]]) + Split(s, off + 2).namespaces;
  }

  /** The scan's last cut: with no separator left, the rest is the class name. */
  lemma SplitDone(s: string, from: nat)
    requires from <= |s| && Find(s, from) == None
    ensures Split(s, from) == Parts([], s[from..])
  {
  }

  /** Opening one more namespace appends `namespace X { ` to the openings so far. */
  lemma OpensSnoc(namespaces: seq<string>, ns: string)
    ensures Opens(namespaces + [ns]) == Opens(namespaces) + "namespace " + ns + " { "
  {
    assert (namespaces + [ns])[..|namespaces|] == namespaces;
  }

  /** Rejoining the cuts with `::` gives back the scanned text: no character is lost or added. */
  lemma {:induction false} SplitRejoins(s: string, from: nat)
    requires from <= |s|
    ensures Qualify(Split(s, from)) == s[from..]
    decreases |s| - from
  {
    match Find(s, from)
    case None =>
      SplitDone(s, from);
    case Some(off) =>
      SplitRejoins(s, off + 2);
      SplitStep(s, from, off);
      var rest := Split(s, off + 2);
      var p := Split(s, from);
      assert p.namespaces[0] == s[from..off];
      assert p.namespaces[1..] == rest.namespaces;
      assert Qualify(p) == s[from..off] + "::" + Qualify(rest);
      JoinAtSeparator(s, from, off);
  }

  /** Cutting at a separator and joining the two sides with `::` restores the text. */
  lemma JoinAtSeparator(s: string, from: nat, off: nat)
    requires from <= off && SepAt(s, off)
    ensures s[from..off] + "::" + s[off + 2..] == s[from..]
  {
    assert s[off..off + 2] == "::";
    assert s[from..] == s[from..off] + s[off..off + 2] + s[off + 2..];
  }

  /**
    No cut contains a separator, and no namespace ends in `:` (its last
    character would have started an earlier separator): the class name is
    everything after the last separator the scan consumed.
   */
  lemma {:induction false} SplitSegments(s: string, from: nat)
    requires from <= |s|
    ensures NoSep(Split(s, from).className)
    ensures forall k :: 0 <= k < |Split(s, from).namespaces| ==>
      && NoSep(Split(s, from).namespaces[k])
      && !EndsWithColon(Split(s, from).namespaces[k])
    decreases |s| - from
  {
    FindIsFirst(s, from);
    match Find(s, from)
    case None =>
      var c := s[from..];
      forall i | 0 <= i < |c| ensures !SepAt(c, i) {
        assert !SepAt(s, from + i);
      }
    case Some(off) =>
      SplitSegments(s, off + 2);
      var ns := s[from..off];
      forall i | 0 <= i < |ns| ensures !SepAt(ns, i) {
        assert !SepAt(s, from + i);
      }
      if |ns| > 0 {
        assert !SepAt(s, off - 1);
      }
      var p := Split(s, from);
      forall k | 0 <= k < |p.namespaces|
        ensures NoSep(p.namespaces[k]) && !EndsWithColon(p.namespaces[k])
      {
        if k > 0 {
          assert p.namespaces[k] == Split(s, off + 2).namespaces[k - 1];
        }
      }
  }

  predicate EndsWithColon(s: string)
  {
    |s| > 0 && s[|s| - 1] == ':'
  }

  /** The parts a scan can produce: separator-free cuts, no namespace ending in `:`. */
  predicate WellFormedParts(p: Parts)
  {
    && NoSep(p.className)
    && forall k :: 0 <= k < |p.namespaces| ==> NoSep(p.namespaces[k]) && !EndsWithColon(p.namespaces[k])
  }

  /** A separator-free text followed by `::` and more is found at its end. */
  lemma FindAfterSegment(seg: string, tail: string)
    requires NoSep(seg) && !EndsWithColon(seg)
    ensures Find(seg + "::" + tail, 0) == Some(|seg|)
  {
    var s := seg + "::" + tail;
    forall j | 0 <= j < |seg| ensures !SepAt(s, j) {
      if j + 1 < |seg| {
        assert !SepAt(seg, j);
      }
    }
    FindFrom(s, 0, |seg|);
  }

  /** `Find` reaches the first separator after a stretch without one. */
  lemma {:induction false} FindFrom(s: string, from: nat, at: nat)
    requires from <= at && SepAt(s, at)
    requires forall j :: from <= j < at ==> !SepAt(s, j)
    ensures Find(s, from) == Some(at)
    decreases at - from
  {
    if from < at {
      FindFrom(s, from + 1, at);
    }
  }

  /** The scan of a separator-free text finds nothing. */
  lemma {:induction false} FindNone(s: string, from: nat)
    requires from <= |s| && NoSep(s)
    ensures Find(s, from) == None
    decreases |s| - from
  {
    if from + 2 <= |s| {
      FindNone(s, from + 1);
    }
  }

  /** The scan undoes `Qualify` on well-formed parts: cutting and joining are inverse. */
  lemma {:induction false} SplitOfQualified(p: Parts)
    requires WellFormedParts(p)
    ensures Split(Qualify(p), 0) == p
    decreases |p.namespaces|
  {
    var s := Qualify(p);
    if p.namespaces == [] {
      FindNone(s, 0);
      assert s[0..] == s;
    } else {
      var seg := p.namespaces[0];
      var restParts := Parts(p.namespaces[1..], p.className);
      var tail := Qualify(restParts);
      assert s == seg + "::" + tail;
      FindAfterSegment(seg, tail);
      SplitOfQualified(restParts);
      SplitSuffix(s, |seg| + 2, tail);
      assert s[0..|seg|] == seg;
      assert [seg] + p.namespaces[1..] == p.namespaces;
    }
  }

  /** Scanning from `from` is scanning the suffix that starts there. */
  lemma {:induction false} SplitSuffix(s: string, from: nat, t: string)
    requires from <= |s| && t == s[from..]
    ensures Split(s, from) == Split(t, 0)
    decreases |s| - from
  {
    FindSuffix(s, from, t, 0);
    match Find(t, 0)
    case None =>
    case Some(off) =>
      SplitSuffix(s, from + off + 2, t[off + 2..]);
      SplitSuffix(t, off + 2, t[off + 2..]);
      assert s[from..from + off] == t[0..off];
  }

  /** `Find` on a suffix is `Find` on the whole, shifted. */
  lemma {:induction false} FindSuffix(s: string, from: nat, t: string, k: nat)
    requires from <= |s| && t == s[from..] && k <= |t|
    ensures Find(s, from + k) == (if Find(t, k).Some? then Some(from + Find(t, k).value) else None)
    decreases |t| - k
  {
    if k + 2 <= |t| {
      assert SepAt(s, from + k) == SepAt(t, k);
      if !SepAt(t, k) {
        FindSuffix(s, from, t, k + 1);
      }
    }
  }

  /**
    A well-formed qualified name with a non-empty class declares that class
    inside its namespaces, in order, closes each of them, and names both
    kernels after the name as given.
   */
  lemma EntriesOfQualifiedName(p: Parts)
    requires WellFormedParts(p) && p.className != [] && !SepAt(Qualify(p), 0)
    ensures UserEntriesOf(Qualify(p)) == Success(UserEntries(
      Opens(p.namespaces) + "class " + p.className + "; " + Closes(|p.namespaces|) + MangleCodePostfix,
      InitTemplate + Qualify(p) + ">",
      RunTemplate + Qualify(p) + ">"))
  {
    SplitOfQualified(p);
  }

  /** A single leading `::` is dropped before anything else: `::a::C` builds what `a::C` does. */
  lemma LeadingSeparatorIgnored(entryClass: string)
    requires !SepAt(entryClass, 0)
    ensures UserEntriesOf("::" + entryClass) == UserEntriesOf(entryClass)
  {
    assert ("::" + entryClass)[2..] == entryClass;
  }

  /** A name whose scan leaves no class (empty, or ending in a consumed `::`) is rejected. */
  lemma EmptyClassIsFatal(namespaces: seq<string>)
    requires WellFormedParts(Parts(namespaces, "")) && !SepAt(Qualify(Parts(namespaces, "")), 0)
    ensures UserEntriesOf(Qualify(Parts(namespaces, ""))) == Failure(InvalidEntryMessage)
  {
    SplitOfQualified(Parts(namespaces, ""));
  }

  /** Success exactly when the class name the scan leaves is non-empty; it is then the last cut. */
  lemma SucceedsIffClassNamed(entryClass: string)
    ensures UserEntriesOf(entryClass).Success? <==> Split(TrimLeadingSep(entryClass), 0).className != []
    ensures UserEntriesOf(entryClass).Success? ==>
      Qualify(Split(TrimLeadingSep(entryClass), 0)) == TrimLeadingSep(entryClass)
  {
    SplitRejoins(TrimLeadingSep(entryClass), 0);
    assert TrimLeadingSep(entryClass)[0..] == TrimLeadingSep(entryClass);
  }

  /** `a::b::C` is cut into the namespaces `a`, `b` and the class `C`. */
  lemma NestedClassParts()
    ensures Split("a::b::C", 0) == Parts(["a", "b"], "C")
  {
    var p := Parts(["a", "b"], "C");
    assert Qualify(p) == "a::b::C";
    assert WellFormedParts(p);
    SplitOfQualified(p);
  }

  /** `a::b::C` declares `C` inside `a` and `b` and names both kernels after it. */
  lemma NestedClassExample()
    ensures UserEntriesOf("a::b::C") == Success(UserEntries(
      ForwardDeclaration(Parts(["a", "b"], "C")) + MangleCodePostfix,
      InitTemplate + "a::b::C" + ">",
      RunTemplate + "a::b::C" + ">"))
  {
    var p := Parts(["a", "b"], "C");
    assert Qualify(p) == "a::b::C";
    assert WellFormedParts(p);
    EntriesOfQualifiedName(p);
  }

  /** `::a::b::C` builds what `a::b::C` does. */
  lemma NestedClassLeadingSeparator()
    ensures UserEntriesOf("::a::b::C") == UserEntriesOf("a::b::C")
  {
    assert !SepAt("a::b::C", 0);
    LeadingSeparatorIgnored("a::b::C");
    assert "::" + "a::b::C" == "::a::b::C";
  }

  /** A trailing separator leaves an empty class name: `a::` is rejected, and so is the empty name. */
  lemma TrailingSeparatorExample()
    ensures UserEntriesOf("a::") == Failure(InvalidEntryMessage)
    ensures UserEntriesOf("") == Failure(InvalidEntryMessage)
    ensures UserEntriesOf("::") == Failure(InvalidEntryMessage)
  {
    assert Qualify(Parts(["a"], "")) == "a::";
    EmptyClassIsFatal(["a"]);
    EmptyClassIsFatal([]);
  }
}
