TestResult.DisplayName,TestResult.Outcome,TestResult.Duration,TestResult.ResourceCount,RandomSeed
DataLoader.SecondTargetOverruns (well-formedness),Passed,00:00:00.4567496,172123,2
DataLoader.SecondTargetOverruns (correctness),Passed,00:00:00.4320837,200495,2
