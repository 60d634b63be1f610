/** The compositor's multi-mix node as the node editor sees it: a count of image inputs
    kept in the node's storage, with sockets named "Image 1", "Image 2", ... appended
    and removed at the end of the node's input list. The node never drops below two
    image inputs. */
module MultiMixNode {

  /** The decimal text of an integer, as `%d` prints it. */
  function DecimalNat(n: nat): (s: string)
    ensures |s| >= 1 && forall i :: 0 <= i < |s| ==> '0' <= s[i] <= '9'
    decreases n
  {
    if n < 10 then [Digit(n)] else DecimalNat(n / 10) + [Digit(n % 10)]
  }

  function Digit(d: nat): (c: char)
    requires d < 10
    ensures '0' <= c <= '9' && c as int - '0' as int == d
  {
    (d + '0' as int) as char
  }

  function DecimalInt(n: int): (s: string)
    ensures |s| >= 1
  {
    if n < 0 then "-" + DecimalNat(-n) else DecimalNat(n)
  }

  /** Reads back a string of decimal digits. */
  function ParseNat(s: string): nat
    requires forall i :: 0 <= i < |s| ==> '0' <= s[i] <= '9'
    decreases |s|
  {
    if s == [] then 0 else ParseNat(s[..|s| - 1]) * 10 + (s[|s| - 1] as int - '0' as int)
  }

  function ParseInt(s: string): int
    requires |s| >= 1
    requires s[0] == '-' ==> forall i :: 1 <= i < |s| ==> '0' <= s[i] <= '9'
    requires s[0] != '-' ==> forall i :: 0 <= i < |s| ==> '0' <= s[i] <= '9'
  {
    if s[0] == '-' then -(ParseNat(s[1..]) as int) else ParseNat(s)
  }

  lemma {:induction false} ParseDecimalNat(n: nat)
    ensures ParseNat(DecimalNat(n)) == n
    decreases n
  {
    if n >= 10 {
      var s := DecimalNat(n);
      assert s[..|s| - 1] == DecimalNat(n / 10);
      ParseDecimalNat(n / 10);
    }
  }

  /** Printing an integer and reading it back gives the integer, so different counts give
      different socket names. */
  lemma ParseDecimalInt(n: int)
    ensures ParseInt(DecimalInt(n)) == n
  {
    if n < 0 {
      ParseDecimalNat(-n);
      assert DecimalInt(n)[1..] == DecimalNat(-n);
    } else {
      ParseDecimalNat(n);
    }
  }

  /** The name of the `k`-th image input. */
  function SocketName(k: int): (name: string)
    ensures |name| >= 7
  {
    "Image " + DecimalInt(k)
  }

  lemma SocketNameInjective(j: int, k: int)
    ensures SocketName(j) == SocketName(k) ==> j == k
  {
    if SocketName(j) == SocketName(k) {
      assert SocketName(j)[6..] == DecimalInt(j);
      assert SocketName(k)[6..] == DecimalInt(k);
      ParseDecimalInt(j);
      ParseDecimalInt(k);
    }
  }

  /** The node: `num_inputs` from its storage and the names of its input sockets, the
      template's "Fac" input first. */
  datatype Node = Node(numInputs: int, inputs: seq<string>)

  /** `ntreeCompositeMultiMixNodeAddSocket`: one more input, named after the new count,
      appended at the end. The new socket's name is returned with the node. */
  function AddSocket(n: Node): (r: (Node, string))
    ensures r.0.numInputs == n.numInputs + 1
    ensures r.0.inputs == n.inputs + [r.1]
    ensures r.1 == SocketName(r.0.numInputs)
  {
    var count := n.numInputs + 1;
    var name := SocketName(count);
    (Node(count, n.inputs + [name]), name)
  }

  /** `ntreeCompositeMultiMixNodeRemoveSocket`: with fewer than three inputs nothing
      changes and 0 is returned; otherwise the last input socket goes and 1 is returned.
      The node must then have an input socket to remove. */
  function RemoveSocket(n: Node): (r: (Node, int))
    requires n.numInputs >= 3 ==> |n.inputs| >= 1
    ensures n.numInputs < 3 <==> r.1 == 0
    ensures r.1 == 0 ==> r.0 == n
    ensures r.1 == 1 ==> r.0.numInputs == n.numInputs - 1 && r.0.inputs == n.inputs[..|n.inputs| - 1]
    ensures r.1 == 0 || r.1 == 1
  {
    if n.numInputs < 3 then (n, 0)
    else (Node(n.numInputs - 1, n.inputs[..|n.inputs| - 1]), 1)
  }

  /** The node's `init` on zeroed storage: two image inputs added after the template's
      sockets `base`. */
  function Init(base: seq<string>): (n: Node)
    ensures n.numInputs == 2
    ensures n.inputs == base + ["Image 1", "Image 2"]
  {
    var n0 := Node(0, base);
    assert DecimalInt(1) == "1" && DecimalInt(2) == "2" by {
      assert Digit(1) == '1' && Digit(2) == '2';
    }
    assert SocketName(1) == "Image 1" && SocketName(2) == "Image 2";
    assert base + ["Image 1"] + ["Image 2"] == base + ["Image 1", "Image 2"];
    AddSocket(AddSocket(n0).0).0
  }

  /** The shape every node keeps: at least two image inputs, the last `numInputs` input
      sockets named "Image 1" up to "Image numInputs", after the template's sockets. */
  ghost predicate Valid(n: Node, base: seq<string>) {
    n.numInputs >= 2
    && |n.inputs| == |base| + n.numInputs
    && n.inputs[..|base|] == base
    && forall k :: 1 <= k <= n.numInputs ==> n.inputs[|base| + k - 1] == SocketName(k)
  }

  lemma InitValid(base: seq<string>)
    ensures Valid(Init(base), base)
  {
    var n := Init(base);
    assert n.inputs[|base|] == "Image 1";
    assert n.inputs[|base| + 1] == "Image 2";
  }

  /** Adding keeps the shape. */
  lemma AddSocketValid(n: Node, base: seq<string>)
    requires Valid(n, base)
    ensures Valid(AddSocket(n).0, base)
  {
    var r := AddSocket(n).0;
    assert r.inputs[..|base|] == n.inputs[..|base|];
    forall k | 1 <= k <= r.numInputs
      ensures r.inputs[|base| + k - 1] == SocketName(k)
    {
      if k <= n.numInputs {
        assert r.inputs[|base| + k - 1] == n.inputs[|base| + k - 1];
      }
    }
  }

  /** Removing keeps the shape, and in particular never leaves fewer than two image
      inputs. */
  lemma RemoveSocketValid(n: Node, base: seq<string>)
    requires Valid(n, base)
    ensures Valid(RemoveSocket(n).0, base)
    ensures RemoveSocket(n).0.numInputs >= 2
  {
    var r := RemoveSocket(n).0;
    if n.numInputs >= 3 {
      assert r.inputs[..|base|] == n.inputs[..|base|];
      forall k | 1 <= k <= r.numInputs
        ensures r.inputs[|base| + k - 1] == SocketName(k)
      {
        assert r.inputs[|base| + k - 1] == n.inputs[|base| + k - 1];
      }
    }
  }

  /** Adding a socket to a node with at least two inputs and removing one again gives
      back the node. */
  lemma AddThenRemoveRestores(n: Node)
    requires n.numInputs >= 2
    ensures RemoveSocket(AddSocket(n).0) == (n, 1)
  {
    var a := AddSocket(n).0;
    assert a.inputs[..|a.inputs| - 1] == n.inputs;
  }
}
