// Requests for memory, each of which is granted or refused.
module Memory {

  class Heap {
    // Whether the n-th request is granted: the outside world decides.
    const grants: nat -> bool
    var asked: nat

    constructor (grants: nat -> bool)
      ensures this.grants == grants && asked == 0
    {
      this.grants, asked := grants, 0;
    }

    // Some request since then has been refused.
    ghost predicate Refused(since: nat)
      reads this
    {
      exists n :: since <= n < asked && !grants(n)
    }

    method Ask() returns (granted: bool)
      modifies this
      ensures asked == old(asked) + 1 && granted == grants(old(asked))
      ensures !granted <==> Refused(old(asked))
    {
      granted := grants(asked);
      asked := asked + 1;
    }
  }
}
