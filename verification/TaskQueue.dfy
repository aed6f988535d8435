/** The linked task queue of the thread pool: firstTask and lastTask, a next pointer in
    each task, and the code that appends, takes and frees. ThreadPool's `queue` is the
    sequence these pointers spell: each of its steps does to the queue what the method that
    the code calls there does to `Tasks()`. */
module TaskQueue {
  import opened Options
  import ThreadPool

  /** The step that enqueues has the effect of Append. */
  lemma EnqueueStep(s: ThreadPool.Pool)
    requires s.client.RunEnqueue?
    ensures ThreadPool.ClientDo(s).queue == s.queue + [s.submitted]
  {}

  /** The step that dequeues has the effect of GetTask: no task from an empty queue, and the
      oldest one otherwise. */
  lemma DequeueStep(s: ThreadPool.Pool, i: nat)
    requires i < |s.workers| && s.workers[i].TakeTask?
    ensures ThreadPool.WorkerDo(s, i).workers[i].TookTask?
    ensures var queue := ThreadPool.WorkerDo(s, i).queue;
      match ThreadPool.WorkerDo(s, i).workers[i].task
      case None => s.queue == [] && queue == []
      case Some(task) => s.queue == [task] + queue
  {}

  /** And the one that clears the queue keeps what Clear frees. */
  lemma ClearStep(s: ThreadPool.Pool)
    requires s.client.DestroyClear?
    ensures ThreadPool.ClientDo(s).queue == [] && ThreadPool.ClientDo(s).discarded == s.queue
  {}

  class Node {
    const task: nat
    var next: Node?

    constructor (task: nat)
      ensures this.task == task && next == null
    {
      this.task := task;
      next := null;
    }
  }

  class TaskQueue {
    var firstTask: Node?
    var lastTask: Node?
    ghost var spine: seq<Node>

    ghost predicate Valid()
      reads this, spine
    {
      && (forall i, j | 0 <= i < j < |spine| :: spine[i] != spine[j])
      && (forall i | 0 <= i < |spine| :: spine[i].next == NodeAt(i + 1))
      && firstTask == (if spine == [] then null else spine[0])
      && lastTask == (if spine == [] then null else spine[|spine| - 1])
    }

    ghost function NodeAt(i: nat): Node?
      reads this
    {
      if i < |spine| then spine[i] else null
    }

    ghost function Tasks(): (t: seq<nat>)
      reads this, spine
    {
      seq(|spine|, i requires 0 <= i < |spine| reads this, spine => spine[i].task)
    }

    constructor ()
      ensures Valid() && Tasks() == [] && spine == []
    {
      firstTask, lastTask, spine := null, null, [];
    }

    /** The linking in ThreadPool_run. */
    method Append(task: nat)
      requires Valid()
      modifies this, spine
      ensures Valid() && Tasks() == old(Tasks()) + [task]
      ensures |spine| == |old(spine)| + 1 && spine[..|old(spine)|] == old(spine) && fresh(spine[|old(spine)|])
    {
      var node := new Node(task);
      if firstTask == null {
        firstTask := node;
        lastTask := firstTask;
      } else {
        lastTask.next := node;
        lastTask := node;
      }
      spine := spine + [node];
    }

    /** ThreadPool_getTask: nothing from an empty queue, the oldest task otherwise. */
    method GetTask() returns (node: Node?)
      requires Valid()
      modifies this
      ensures Valid()
      ensures node == null <==> old(Tasks()) == []
      ensures node == null ==> Tasks() == []
      ensures node != null ==>
                old(Tasks()) == [node.task] + Tasks() && spine == old(spine)[1..] && node == old(spine)[0]
    {
      node := firstTask;
      if node == null { return; }
      assert spine[0].next == NodeAt(1);
      if node.next == null {
        firstTask := null;
        lastTask := null;
      } else {
        firstTask := node.next;
      }
      ghost var rest := spine[1..];
      assert forall i | 0 <= i < |rest| :: rest[i] == spine[i + 1] && rest[i].next == NodeAt(i + 2);
      spine := rest;
    }

    /** The loop of ThreadPool_destroy: every queued task is visited once, its successor
        read before it is freed. */
    method Clear() returns (freed: seq<Node>)
      requires Valid()
      modifies this
      ensures Valid() && Tasks() == []
      ensures freed == old(spine)
    {
      freed := [];
      var curr := firstTask;
      while curr != null
        invariant freed <= spine
        invariant curr == NodeAt(|freed|)
        decreases |spine| - |freed|
      {
        assert spine[|freed|].next == NodeAt(|freed| + 1);
        var next := curr.next;
        freed := freed + [curr];
        curr := next;
      }
      firstTask := null;
      lastTask := null;
      spine := [];
    }
  }
}
